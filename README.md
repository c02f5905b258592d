# COS resources and the paged listing cursor

This project models `lib/cos/resource.rb` of the Tencent COS Ruby SDK. The model has two parts.

- **`COS::Resource`** (module `Listing`) is a lazy cursor over a paged remote listing.
  - It buffers the classified entries of the latest page (`@results`).
  - It keeps that page's `dir_count` and `file_count`.
  - It carries the continuation fields `context` and `has_more` from one request to the next in its options hash (`@more`).
  - `next` shifts one buffered resource out at a time. When the buffer is empty it first fetches a page (`fetch_more`), unless `has_more` is `false`.
  - The cursor is a class, and its public state is the Ruby instance variables.
  - Ghost state records every page received (`Pages`), the raw entries behind the buffer (`Buffered`) and every entry that has left the buffer (`Consumed`).
  - The invariant `Valid` ties these together. `Consumed + Buffered` is always every fetched entry in page order, so within `next` nothing is lost or repeated. A direct `fetch` on a non-empty buffer drops the rest of the buffer, and `Consumed` records those entries. Each page is the service's reply to the request that carries the previous page's `context` and `has_more`.
- **`ResourceOperator` / `COSFile` / `COSDir`** (modules `Resources`, `SizeFormat`, `Decimal`) model the resources themselves.
  - A listing entry becomes a directory when its `filesize` is nil and a file otherwise. The class carries a `File | Dir` tag.
  - `to_hash` is modelled as a map over a key datatype.
  - `size`, `format_size` with `human_rep`, and `complete?` are pure functions.
  - `update` is a method that changes `mtime` and `biz_attr`.
  - `human_rep` uses exact integer arithmetic. It picks the largest exponent `e ≤ 3` with `1024^e ≤ bytes` and returns the size scaled by `1024^e` as an exact fraction.
  - `format_size` rounds that fraction half-up to hundredths (`round(2)`) and renders it with two decimals.
  - `Decimal` renders integers as `Integer#to_s` does and hundredths as `"%.2f"` does. Both renderings are proved to read back to the number.

Remote calls are parameters:
- `client.api.list` is the cursor's `service` function. A Failure stands for a raised error.
- `Util.get_list_path` is `listPath`.
- `bucket.update` is passed to `Update`.
- The current time is passed to `Update` as `now`.

Where the code and its documentation differ, the model follows the code:
- `complete?` holds when `filelen` and `filesize` are both nil, because the two nils compare equal (`CompleteWithoutLengths`).
- An empty page ends the iteration even when its `has_more` is true.
- The end of an iteration is not permanent: a later `next` fetches again unless `has_more` is `false`. Only an explicit `false` stops a fetch; a nil or absent value does not.
- A reply without `infos` is not an empty page. `resp[:infos].map` raises on nil before any state changes, so the `|| []` fallback never applies. The model covers this case only as a `service` Failure, which leaves the cursor unchanged.

## Model

| member | source | states |
|---|---|---|
| Decimal.NatToStringRoundTrip | lib/cos/resource.rb:171 | the decimal digits of a natural number read back as that number |
| Decimal.IntToStringRoundTrip | lib/cos/resource.rb:171 | `Integer#to_s` text is a well-formed integer text that reads back as the same integer; it starts with '-' exactly for negative numbers |
| Decimal.FixedTwoRoundTrip | lib/cos/resource.rb:176 | `"%.2f"` of h hundredths is the digits of h / 100, a point, and exactly two digits; reading both parts back gives h |
| SizeFormat.Exponent | lib/cos/resource.rb:207-210 | the exponent of `human_rep` is at most 3, its power of 1024 fits in the size, and below 3 the next power does not |
| SizeFormat.ExponentIsLargest | lib/cos/resource.rb:209-210 | every k ≤ 3 whose power of 1024 fits in the size is at most the chosen exponent |
| SizeFormat.HumanRep | lib/cos/resource.rb:205-216 | the scaled size times 1024^exponent equals the byte count exactly; it is at least 1, and below 1024 unless the unit was clamped at GB |
| SizeFormat.RoundHundredths | lib/cos/resource.rb:176 | `round(2)` in hundredths: h is the nearest integer to 100·num/den, and a tie rounds up |
| SizeFormat.FormatSizeBytes | lib/cos/resource.rb:170-171 | below 1024 bytes the text of `FormatSize` (`format_size`, for which `Resources.ResourceOperator.FormatSize` passes a file's `filesize`) is the size's `to_s` followed by "B"; an absent size gives "B" |
| SizeFormat.FormatSizeScaled | lib/cos/resource.rb:172-181 | from 1024 bytes on, in the text of `FormatSize` (and so of `Resources.ResourceOperator.FormatSize`) the unit is KB, MB or GB (the no-decimals branch is never taken and the unit never passes GB), it is the largest that fits, and the number is the size in that unit rounded half-up to two decimals |
| SizeFormat.FormatSizeSmallExamples | lib/cos/resource.rb:169-171 | 0 gives "0B" and 1023 gives "1023B" |
| SizeFormat.FormatSizeKilobyteExample | lib/cos/resource.rb:172-181 | 1024 gives "1.00KB" |
| SizeFormat.FormatSizeHalfKilobyteExample | lib/cos/resource.rb:172-181 | 1536 gives "1.50KB" |
| SizeFormat.FormatSizeMegabyteExample | lib/cos/resource.rb:172-181 | 1572864 gives "1.50MB" |
| SizeFormat.FormatSizeTieExample | lib/cos/resource.rb:176 | 1152 bytes (exactly 1.125 KB) gives "1.13KB" |
| SizeFormat.FormatSizeClampExample | lib/cos/resource.rb:210 | 1024^4 bytes gives "1024.00GB" |
| SizeFormat.FormatSizeEdgeExamples | lib/cos/resource.rb:170-171 | an absent size gives "B" and -5 gives "-5B" |
| Resources.ResourceOperator.FromEntry | lib/cos/resource.rb:42-56 | the new resource holds the entry's attributes with the given bucket and path; it is a file exactly when the entry has a `filesize`, and its `type` is "file" or "dir" accordingly (lines 155, 225) |
| Resources.ResourceOperator.ToHash | lib/cos/resource.rb:103-118 | the hash holds the six fixed keys with the resource's type, bucket name, path, name, ctime and mtime; it holds an optional key exactly when that attribute is not nil, with its value; no value in it is nil |
| Resources.ResourceOperator.Size | lib/cos/resource.rb:164-166 | the size is the declared `filesize`, or 0 when there is none |
| Resources.ResourceOperator.IsComplete | lib/cos/resource.rb:188-190 | complete exactly when an access URL is set and `filelen` and `filesize` are both absent or both present and equal |
| Resources.CompleteWithoutLengths | lib/cos/resource.rb:188-190 | a file with an access URL and neither length nor size is complete |
| Resources.ResourceOperator.Update | lib/cos/resource.rb:133-138 | the bucket is asked first; if that fails the result is its error and nothing changes; otherwise `mtime` is the text of `now`, `biz_attr` is the new value, the result is the object itself, and every other attribute is unchanged |
| Listing.Resource.constructor | lib/cos/resource.rb:9-16 | a new cursor has the given options, an empty buffer, zero counts and no pages |
| Listing.Resource.Classify | lib/cos/resource.rb:42-56 | one fresh resource per entry, in order, pairwise distinct objects, each classified by its `filesize` and given the listing path for its kind |
| Listing.Resource.Fetch | lib/cos/resource.rb:38-63 | a failed request changes nothing; a reply replaces the buffer with fresh, pairwise distinct resources for the page's entries, each carrying its entry's `mtime` and `biz_attr`, replaces (not adds to) both counts, overwrites `context` and `has_more` with the page's, and keeps the invariant |
| Listing.Resource.Shift | lib/cos/resource.rb:25 | the first buffered resource is removed and returned, its entry is the next one consumed, and the latest page has then had at least one entry taken |
| Listing.Resource.Next | lib/cos/resource.rb:19-30 | a page is requested only when the buffer is empty and `has_more` is not false (lines 68-71); the iteration ends exactly when the buffer is still empty after that, an empty page included, and then `has_more` is false or the page fetched in this call was empty; at most one page is added, and never an empty one in a call that delivers; otherwise exactly the next entry in page order is delivered, once, from a page that has had an entry taken; a buffered resource is delivered itself, and a resource fetched in that same call is fresh and carries its entry's `mtime` and `biz_attr`; a fetched buffer holds fresh, pairwise distinct resources, and the one delivered from it is no longer among them |
| Listing.Resource.Round | lib/cos/resource.rb:20-28 | one pass of the loop: it stops on an error, which is the service's failure on the request for the next page, or when nothing could be shifted, and then every fetched entry has been delivered and `has_more` is false or the page fetched in this pass was empty; otherwise it keeps what was collected and appends exactly the next entry's resource (the first buffered resource itself when there is one), from a page that has had an entry taken; no empty page is passed over: one fetched in this pass ends the loop without an error; a page is fetched only while `has_more` is not false |
| Listing.Resource.Advance | lib/cos/resource.rb:20-28 | a pass of the loop keeps the loop's invariant: the collected resources are the entries consumed since the start, in order, and the resources buffered at the start come first, themselves; pages are only added, and only the last page fetched since the start may be empty; a stop without an error comes after every fetched entry was delivered, with `has_more` false or an empty page fetched since the start; an error never follows an empty page fetched since the start; pages are fetched only while `has_more` is not false: none after a page that said false, and none at all if the options at the start said false |
| Listing.Resource.Each | lib/cos/resource.rb:19-30 | the loop with a block that stops after `limit` resources yields fetched entries in page order, each once, the buffered resources themselves first, and pages are only added; an empty page ends the loop without an error, so among the pages it fetched only the last may be empty, and an error never comes after an empty page fetched in this call; pages are fetched only while `has_more` is not false: none if it was false when the call began, and none after a page that said false; it stops early without an error only after every fetched entry was delivered, with the buffer empty and `has_more` false or a page fetched in this call empty; an error is the service's failure on the request for the next page, with the buffer empty, `has_more` not false and fewer than `limit` resources yielded; once `limit` resources are yielded no page is fetched that was not drawn from |

## Left out

- `client.api.list` is the network call. It is the cursor's `service` parameter, a fixed function of the request, so a repeated identical request gets the same reply.
- `Util.get_list_path` is not part of this model. It is the uninterpreted `listPath` parameter.
- `bucket.update` is the `bucketUpdate` parameter of `Update`. `Time.now` is replaced by the `now` parameter.
- `human_rep` really uses `Float` and `Math.log`, and `format_size` then applies `round(2)` and `"%.2f"` to that float. The model uses exact rationals. So it leaves out:
  - the float logarithm that can pick too small an exponent at an exact power of 1024;
  - the precision loss above 2^53 bytes;
  - binary rounding of `Float#round(2)` and of `"%.2f"`.
- `sha1_match?`, `created_at` and `updated_at` are left out because they need the file system, `Util.file_sha1` or `Time.at`.
- The delegation-only methods are left out because they only forward to an unseen bucket:
  - `exist?`, `stat`, `delete`, `url` and `download`;
  - `COSDir`'s `upload`, `list`, `tree`, `create_folder` and `count*`.
- `to_enum` and the `Struct::Base` attribute validation are Ruby machinery and are left out.
- `file_size` and `file_len` are aliases of `filesize` and `filelen` (lines 85-86). The model reads those attributes directly and has no separate members for the aliases.
- Resources.ResourceOperator.ToHash: a Ruby hash keeps insertion order (the six fixed keys, then the optional attributes in declaration order). The model's `map<Key, Value>` has no order, so that order is not stated.
- A reply without `infos` raises in the source (`map` on nil). The model has no such reply, because `infos` is always a sequence. That raise is covered only as a `service` Failure.
- Listing.Resource.Each: the resources it yields after the buffered ones are fixed only up to the attributes `update` cannot change (kind, bucket, path and the entry's other attributes). Its contract does not say that they are new objects or what their `mtime` and `biz_attr` are. `Fetch` states both when it creates them, and `Next` states them when a resource is fetched and delivered in the same call.
- Listing.Resource.Each: it models `next` only with a block that breaks after `limit` resources. Unbounded iteration and arbitrary blocks are not modelled. A limit of 0 runs no round, which no Ruby block can produce.
- Listing.Resource.Next: the options hash belongs to the cursor. Aliasing with the caller's hash, which `fetch` mutates in place in Ruby, is not modelled.
- Listing.Resource.Next: `Valid` fixes only the attributes `update` cannot change for the buffered resources. In Ruby `@results` has no reader, but the model's `results` field is public, so a caller could `update` a resource while it is still buffered. So the `mtime` and `biz_attr` of a delivered resource are stated only when it was fetched in the same call, and otherwise only by `Fetch`, when the resource is created.
- Response fields other than `infos`, `dir_count`, `file_count`, `context` and `has_more` are not modelled.
