/** The resource model: a listing entry classified as a COS file or directory
    (`ResourceOperator`, with the subclasses `COSFile` and `COSDir` told apart by a
    kind tag), its hash view `to_hash`, the file-only attributes and `update`. */
module Resources {
  import opened Wrappers
  import Decimal
  import SizeFormat

  /** A Ruby value as it appears in option hashes, responses and `to_hash`. */
  datatype Value = Nil | Flag(b: bool) | Number(n: int) | Text(s: string) | Texts(items: seq<string>)

  /** The subclass a resource belongs to: `COSFile` or `COSDir`. */
  datatype Kind = File | Dir

  /** The bucket a resource belongs to; inside this model only its name is used, the
      remote operations it performs are passed to the members that call them. */
  datatype Bucket = Bucket(bucketName: string)

  /** One entry of a listing page as the remote service returns it: the required
      attributes and every optional attribute of `ResourceOperator`, None for nil. */
  datatype RawEntry = RawEntry(
    name: string,
    ctime: string,
    mtime: string,
    bizAttr: Option<string>,
    filesize: Option<int>,
    filelen: Option<int>,
    sha: Option<string>,
    accessUrl: Option<string>,
    authority: Option<string>,
    bucketType: Option<int>,
    migrateSourceDomain: Option<string>,
    needPreview: Option<string>,
    refers: Option<seq<string>>)

  /** A listing entry with no `filesize` is a directory; any size, 0 included, makes it a file. */
  function KindOf(e: RawEntry): Kind
  {
    if e.filesize.None? then Dir else File
  }

  /** The `type` attribute each subclass sets in its constructor. */
  function TypeName(k: Kind): string
  {
    match k
    case File => "file"
    case Dir => "dir"
  }

  /** The six keys `to_hash` always writes. */
  datatype FixedKey = TypeKey | BucketKey | PathKey | NameKey | CtimeKey | MtimeKey

  /** The keys of `optional_attrs`, in their declaration order. */
  datatype OptionalKey =
    | BizAttrKey | FilesizeKey | FilelenKey | ShaKey | AccessUrlKey
    | AuthorityKey | BucketTypeKey | MigrateSourceDomainKey | NeedPreviewKey | RefersKey

  /** A key of the hash `to_hash` returns. */
  datatype Key = Fixed(fixed: FixedKey) | Optional(optional: OptionalKey)

  /** Every key `to_hash` may write. */
  const HashKeys: set<Key> := {Fixed(TypeKey), Fixed(BucketKey), Fixed(PathKey),
    Fixed(NameKey), Fixed(CtimeKey), Fixed(MtimeKey), Optional(BizAttrKey), Optional(FilesizeKey),
    Optional(FilelenKey), Optional(ShaKey), Optional(AccessUrlKey), Optional(AuthorityKey),
    Optional(BucketTypeKey), Optional(MigrateSourceDomainKey), Optional(NeedPreviewKey),
    Optional(RefersKey)}

  lemma HashKeysComplete()
    ensures forall k: Key :: k in HashKeys
  {
    forall k: Key
      ensures k in HashKeys
    {
      match k
      case Fixed(f) => {
        match f
        case TypeKey =>
        case BucketKey =>
        case PathKey =>
        case NameKey =>
        case CtimeKey =>
        case MtimeKey =>
      }
      case Optional(o) => {
        match o
        case BizAttrKey =>
        case FilesizeKey =>
        case FilelenKey =>
        case ShaKey =>
        case AccessUrlKey =>
        case AuthorityKey =>
        case BucketTypeKey =>
        case MigrateSourceDomainKey =>
        case NeedPreviewKey =>
        case RefersKey =>
      }
    }
  }

  function TextValue(v: Option<string>): Value
  {
    if v.Some? then Text(v.value) else Nil
  }

  function NumberValue(v: Option<int>): Value
  {
    if v.Some? then Number(v.value) else Nil
  }

  function TextsValue(v: Option<seq<string>>): Value
  {
    if v.Some? then Texts(v.value) else Nil
  }

  class ResourceOperator {
    const kind: Kind
    const bucket: Bucket
    const path: string
    const name: string
    const ctime: string
    /** Changed by `update`. */
    var mtime: string
    /** Changed by `update`. */
    var bizAttr: Option<string>
    const filesize: Option<int>
    const filelen: Option<int>
    const sha: Option<string>
    const accessUrl: Option<string>
    const authority: Option<string>
    const bucketType: Option<int>
    const migrateSourceDomain: Option<string>
    const needPreview: Option<string>
    const refers: Option<seq<string>>

    /** The object holds the attributes of entry e that `update` cannot change, merged
        with the bucket and the path the listing computed, and is a file exactly when e
        has a size. */
    predicate Classifies(e: RawEntry, bucket: Bucket, path: string)
    {
      && kind == KindOf(e) && this.bucket == bucket && this.path == path
      && name == e.name && ctime == e.ctime
      && filesize == e.filesize && filelen == e.filelen && sha == e.sha
      && accessUrl == e.accessUrl && authority == e.authority && bucketType == e.bucketType
      && migrateSourceDomain == e.migrateSourceDomain && needPreview == e.needPreview
      && refers == e.refers
    }

    /** `COSDir.new` / `COSFile.new` on `entry.merge(bucket:, path:)`, the subclass picked
        by whether the entry has a `filesize`. */
    constructor FromEntry(e: RawEntry, bucket: Bucket, path: string)
      ensures Classifies(e, bucket, path) && mtime == e.mtime && bizAttr == e.bizAttr
      ensures kind == File <==> e.filesize.Some?
      ensures TypeName(kind) == (if e.filesize.None? then "dir" else "file")
    {
      kind := KindOf(e);
      this.bucket := bucket;
      this.path := path;
      name := e.name;
      ctime := e.ctime;
      mtime := e.mtime;
      bizAttr := e.bizAttr;
      filesize := e.filesize;
      filelen := e.filelen;
      sha := e.sha;
      accessUrl := e.accessUrl;
      authority := e.authority;
      bucketType := e.bucketType;
      migrateSourceDomain := e.migrateSourceDomain;
      needPreview := e.needPreview;
      refers := e.refers;
    }

    /** The reader of an optional attribute by its key (`send(key)`), Nil when unset. */
    function OptionalAttr(key: OptionalKey): Value
      reads this
    {
      match key
      case BizAttrKey => TextValue(bizAttr)
      case FilesizeKey => NumberValue(filesize)
      case FilelenKey => NumberValue(filelen)
      case ShaKey => TextValue(sha)
      case AccessUrlKey => TextValue(accessUrl)
      case AuthorityKey => TextValue(authority)
      case BucketTypeKey => NumberValue(bucketType)
      case MigrateSourceDomainKey => TextValue(migrateSourceDomain)
      case NeedPreviewKey => TextValue(needPreview)
      case RefersKey => TextsValue(refers)
    }

    /** The value `to_hash` writes for a fixed key. */
    function FixedAttr(key: FixedKey): Value
      reads this
    {
      match key
      case TypeKey => Text(TypeName(kind))
      case BucketKey => Text(bucket.bucketName)
      case PathKey => Text(path)
      case NameKey => Text(name)
      case CtimeKey => Text(ctime)
      case MtimeKey => Text(mtime)
    }

    /** The value `to_hash` reads for a key: the fixed attributes, or `send(key)`. */
    function Attribute(key: Key): Value
      reads this
    {
      match key
      case Fixed(f) => FixedAttr(f)
      case Optional(o) => OptionalAttr(o)
    }

    /** `to_hash`: the six fixed attributes, and exactly those optional attributes that
        are not nil; no value in it is nil. */
    function ToHash(): (h: map<Key, Value>)
      reads this
      ensures Fixed(TypeKey) in h && h[Fixed(TypeKey)] == Text(TypeName(kind))
      ensures Fixed(BucketKey) in h && h[Fixed(BucketKey)] == Text(bucket.bucketName)
      ensures Fixed(PathKey) in h && h[Fixed(PathKey)] == Text(path)
      ensures Fixed(NameKey) in h && h[Fixed(NameKey)] == Text(name)
      ensures Fixed(CtimeKey) in h && h[Fixed(CtimeKey)] == Text(ctime)
      ensures Fixed(MtimeKey) in h && h[Fixed(MtimeKey)] == Text(mtime)
      ensures forall o :: Optional(o) in h <==> OptionalAttr(o) != Nil
      ensures forall o :: Optional(o) in h ==> h[Optional(o)] == OptionalAttr(o)
      ensures forall k :: k in h ==> h[k] != Nil
    {
      HashKeysComplete();
      var h := map k | k in HashKeys && Attribute(k) != Nil :: Attribute(k);
      assert forall f :: Fixed(f) in h && h[Fixed(f)] == FixedAttr(f);
      h
    }

    /** `COSFile#size`: the declared size as an integer, 0 when there is none. */
    function Size(): (n: int)
      requires kind == File
      ensures filesize.None? ==> n == 0
      ensures filesize.Some? ==> n == filesize.value
    {
      SizeFormat.ToI(filesize)
    }

    /** `COSFile#format_size`, on this file's size; its properties are the lemmas of
        SizeFormat. */
    function FormatSize(): string
      requires kind == File
    {
      SizeFormat.FormatSize(filesize)
    }

    /** `COSFile#complete?`: an access URL is recorded and the uploaded length equals the
        declared size, where two absent values compare equal. */
    function IsComplete(): (r: bool)
      requires kind == File
      ensures r <==> && accessUrl.Some?
                     && (filelen.Some? <==> filesize.Some?)
                     && (filelen.Some? ==> filelen.value == filesize.value)
    {
      accessUrl != None && filelen == filesize
    }

    /** `update(biz_attr)`: asks the bucket to update the remote attribute first; only if
        that returns does it set `mtime` to the current time (`now`, in seconds, as
        Integer#to_s text) and `biz_attr`, and it returns the object itself. A raised error
        leaves the object as it was. */
    method Update(attr: Option<string>, now: int,
                  bucketUpdate: (string, Option<string>) -> Outcome<string>)
      returns (r: Result<ResourceOperator, string>)
      modifies this
      ensures bucketUpdate(path, attr).Fail? ==>
        r == Failure(bucketUpdate(path, attr).error) && unchanged(this)
      ensures bucketUpdate(path, attr).Pass? ==>
        r == Success(this) && mtime == Decimal.IntToString(now) && bizAttr == attr
      ensures forall k :: k != BizAttrKey ==> OptionalAttr(k) == old(OptionalAttr(k))
    {
      var call := bucketUpdate(path, attr);
      if call.Fail? {
        return Failure(call.error);
      }
      mtime := Decimal.IntToString(now);
      bizAttr := attr;
      r := Success(this);
    }
  }

  /** A file whose access URL is set and whose length and size are both absent counts as
      complete: the source compares the two nils and finds them equal. */
  lemma CompleteWithoutLengths(f: ResourceOperator)
    requires f.kind == File && f.accessUrl.Some? && f.filelen.None? && f.filesize.None?
    ensures f.IsComplete()
  {
  }
}
