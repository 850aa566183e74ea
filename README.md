# sprite_map: find-or-create of a horizontal sprite sheet, in Dafny

`SpriteMap::ImageMap.find_or_create_by_image_map` takes an insertion-ordered hash
from identifier to image path. It fingerprints the hash by digesting its keys,
sorted and joined with `'-'`. If a row with that fingerprint is already stored,
the row is touched and returned. Otherwise every image is decoded and placed left
to right: x is the running total width, y is 0, and the canvas is the sum of the
widths by the maximum of the heights. The images are composited, and one new row
is created with the fingerprint and the `positions` hash. The presence validation
refuses a row whose `positions` is blank.

The model has four modules:

- `Wrappers` (`wrappers.dfy`): `Option` and `Result`.
- `SpriteLayout` (`layout.dfy`): the layout fold. `LayoutImages` is the `inject`
  loop as a method with loop invariants. It is proved against the specification
  function `Layout`, and lemmas about `Layout` state contiguity, disjointness and
  containment in the canvas.
- `Fingerprinting` (`fingerprint.dfy`): the digest input. It defines the
  lexicographic string order, an insertion sort, `Join` and its partner `Split`.
  It proves that the digest input depends only on the key set, and that `'-'`
  keys make the join collide.
- `SpriteMap` (`image_map.dfy`): the table of stored rows. `Resolve` is one
  find-or-create step as a function of the old table, and lemmas describe hits,
  misses, validation, uniqueness and repeated requests. The class
  `ImageMapTable` holds the rows as a `seq` field. Its methods `Touch`,
  `CreateSpriteImage` and `FindOrCreateByImageMap` change that field in place.
  `Touch` and `CreateSpriteImage` state their new rows directly in terms of the
  old ones. `FindOrCreateByImageMap` is proved to match `Resolve`.

The model does not implement the outside collaborators; they are parameters:

- image decoding is `decode: Path -> Dims` (columns and rows, each at least 1);
- MD5 is `md5: string -> Digest`, where a `Digest` is any 32-character
  string; the model keeps only the length of the hexadecimal digest;
- the clock used by timestamps is `now: nat`.

Three behaviours of the code shape the model:

- `create!` (app/models/sprite_map/image_map.rb:75-79) stores only `positions`,
  `image` and `fingerprint`. The stored row has no canvas width or height.
- The fingerprint index is not unique
  (db/migrate/20170308072125_create_sprite_map_image_maps.rb:4). No code
  re-fetches a row after a duplicate insert. So uniqueness of fingerprints is not
  a class invariant. It is proved only as a property that find-or-create
  preserves (`ResolveKeepsFingerprintsUnique`).
- An empty image map that finds no stored row fails before any row is stored.
  `create_sprite_image` allocates a 0 x 0 canvas
  (app/models/sprite_map/image_map.rb:63), which the imaging library refuses.
  The presence validation on `positions` (app/models/sprite_map/image_map.rb:3)
  would refuse the row anyway. The model reports this single failure as
  `EmptyImageMap`. An empty image map can still succeed on a hit: its digest
  input is "", the same as that of a map whose only key is "", so it is served
  that map's row (`EmptyMapHitsEmptyKeyRow`).

## Model

| member | source | states |
|---|---|---|
| SpriteLayout.Layout | app/models/sprite_map/image_map.rb:23-34 | the positions hash has exactly the input's keys, one entry each, in input order; every placement has y = 0 and the width/height the decoder reports for that entry's path |
| SpriteLayout.LayoutImages | app/models/sprite_map/image_map.rb:18-44 | the fold builds exactly `Layout`, ends with total width = sum of all widths and total height = max of all heights, and decodes each image once |
| SpriteLayout.LayoutXIsPrefixSum | app/models/sprite_map/image_map.rb:23-41 | each placement's x is the sum of the widths of all entries before it in iteration order |
| SpriteLayout.LayoutContiguous | app/models/sprite_map/image_map.rb:30-41 | the first placement starts at x = 0 and each later x is the previous x plus the previous width |
| SpriteLayout.LayoutDisjoint | app/models/sprite_map/image_map.rb:30-41 | the ranges [x, x + width) of any two distinct placements do not overlap |
| SpriteLayout.MaxHeightIsMaximum | app/models/sprite_map/image_map.rb:19-42 | the final height bounds every image height, equals one of them when there is an image, and is 0 for none |
| SpriteLayout.LayoutWithinCanvas | app/models/sprite_map/image_map.rb:63-69 | every placement composited at (x, 0) lies inside the width x height canvas, and the last one reaches its right edge |
| SpriteLayout.NonEmptyCanvas | app/models/sprite_map/image_map.rb:41-63 | a non-empty image map gives a canvas at least 1 pixel wide and 1 pixel high, so only the empty map leads to the 0 x 0 canvas |
| SpriteLayout.EmptyLayout | app/models/sprite_map/image_map.rb:18-23 | an empty image map gives an empty positions hash and a 0 x 0 canvas |
| SpriteLayout.ThreeImageExample | app/models/sprite_map/image_map.rb:23-44 | images a 10x5, b 20x8, c 5x5 are placed at x = 0, 10, 30 on a 35 x 8 canvas |
| Fingerprinting.SortStrings | app/models/sprite_map/image_map.rb:12 | `keys.sort` returns the keys in ascending lexicographic order, as a permutation of the input |
| Fingerprinting.SortedUnique | app/models/sprite_map/image_map.rb:12 | two sorted sequences with the same elements are equal, so the sort's result depends only on the multiset of keys |
| Fingerprinting.SplitJoin | app/models/sprite_map/image_map.rb:12 | the `'-'` join of a non-empty list of parts free of `'-'` can be split back into those parts |
| Fingerprinting.Join | app/models/sprite_map/image_map.rb:12 | Ruby's `join('-')`: "" for no parts, the part itself for one, parts separated by `'-'` otherwise; the result starts with the first part |
| Fingerprinting.FingerprintSource | app/models/sprite_map/image_map.rb:12 | the digest input `keys.sort.join('-')`: "" for an empty map and the key itself for a one-key map |
| Fingerprinting.FingerprintSourceSplits | app/models/sprite_map/image_map.rb:12 | for a non-empty map whose keys contain no `'-'`, the digest input splits back into the sorted keys |
| Fingerprinting.Fingerprint | app/models/sprite_map/image_map.rb:12 | `Digest::MD5.hexdigest` of the digest input; an empty map's fingerprint is the digest of "", and a single key's is the digest of that key |
| Fingerprinting.FingerprintDependsOnlyOnKeySet | app/models/sprite_map/image_map.rb:12 | two hashes with the same key set, in any order and with any paths, have the same digest input and the same fingerprint |
| Fingerprinting.FingerprintSourceIdentifiesKeys | app/models/sprite_map/image_map.rb:12 | for non-empty hashes whose keys contain no `'-'`, the digest inputs are equal if and only if the key sets are equal |
| Fingerprinting.SeparatorCollision | app/models/sprite_map/image_map.rb:12 | the key set {"a-b"} and the key set {"a", "b"} differ but share the digest input "a-b" and so the fingerprint |
| SpriteMap.FindBy | app/models/sprite_map/image_map.rb:14 | `find_by(fingerprint:)` gives the first row with that fingerprint, or nothing when no row has it |
| SpriteMap.Touched | app/models/sprite_map/image_map.rb:15 | `touch` changes only the update timestamp of a row |
| SpriteMap.Resolve | app/models/sprite_map/image_map.rb:11-54 | one call adds at most one row; a returned row carries the request's fingerprint, the new timestamp, and is stored; a failure leaves the table unchanged and happens only for an empty map |
| SpriteMap.ResolveSucceeds | app/models/sprite_map/image_map.rb:14-52 | a call returns a record if and only if it hits a stored row or the image map is not empty |
| SpriteMap.ResolveHit | app/models/sprite_map/image_map.rb:14-16 | on a hit the stored row is returned with only its timestamp touched; no row is added or otherwise changed and no image is decoded |
| SpriteMap.ResolveMiss | app/models/sprite_map/image_map.rb:17-52 | on a miss every image is decoded; exactly one row is appended with the fingerprint and the computed positions, or, when the map is empty, creation fails and nothing is stored |
| SpriteMap.EmptyMapStoresNothing | app/models/sprite_map/image_map.rb:3 | an empty image map never adds a row |
| SpriteMap.EmptyMapHitsEmptyKeyRow | app/models/sprite_map/image_map.rb:12-16 | after a map whose only key is "" is stored, an empty map is a hit on that row: it succeeds, adds no row and decodes nothing |
| SpriteMap.ResolveKeepsAllPresent | app/models/sprite_map/image_map.rb:3 | every stored row keeps a non-blank positions hash across find-or-create |
| SpriteMap.ResolveKeepsFingerprintsUnique | app/models/sprite_map/image_map.rb:14-16 | if no fingerprint is stored twice before a call, none is stored twice after it |
| SpriteMap.ResolvedRowIsFound | app/models/sprite_map/image_map.rb:14 | after a successful call, `find_by` of the fingerprint finds the returned row |
| SpriteMap.ResolveAgainHits | app/models/sprite_map/image_map.rb:12-16 | a second call with the same digest input is a hit: it returns the first call's row, touched, adds no row and decodes no image |
| SpriteMap.SameIdentifiersShareRow | app/models/sprite_map/image_map.rb:12-16 | a second request with the same identifiers, in any order and with any image paths, is served the first request's row and positions without decoding |
| SpriteMap.SeparatorCollisionServesWrongSheet | app/models/sprite_map/image_map.rb:12-16 | after the sheet for "a" and "b" is built, a request for "a-b" is served that sheet, whose positions name "a" and "b" |
| SpriteMap.ImageMapTable.Touch | app/models/sprite_map/image_map.rb:15 | the touched row gets the new update timestamp; every other row is unchanged |
| SpriteMap.ImageMapTable.CreateSpriteImage | app/models/sprite_map/image_map.rb:62-80 | an empty positions hash fails and stores nothing; otherwise exactly one row with the fingerprint and positions is appended |
| SpriteMap.ImageMapTable.FindOrCreateByImageMap | app/models/sprite_map/image_map.rb:11-54 | the table's new rows, the returned record or error, and the decode count are those of `Resolve` on the old rows; a returned record always has non-blank positions, and the presence validation stays true of every row |

## Left out

- Image decoding (app/models/sprite_map/image_map.rb:24) is a native-library call. It is a total function `decode` from path to columns and rows. A path that cannot be read, which raises in the source, is not modelled.
- Decoded sizes are positive: `Dims` holds columns and rows of at least 1, as a decoded image always has. An image of 0 columns or 0 rows cannot be decoded. So the 0 x 0 canvas failure (app/models/sprite_map/image_map.rb:63) arises only for an empty map (`NonEmptyCanvas`).
- Canvas allocation, opacity, compositing and JPEG encoding (app/models/sprite_map/image_map.rb:63-73) are native-library calls. Only the canvas bounds are kept, as `LayoutWithinCanvas`. So the `images` hash (app/models/sprite_map/image_map.rb:21, 36-39) that feeds compositing is not modelled either.
- MD5 (app/models/sprite_map/image_map.rb:12) is a foreign digest. It is the parameter `md5` and is assumed only to return 32 characters.
- The presence validation of `fingerprint` (app/models/sprite_map/image_map.rb:3) is not modelled. A hexadecimal MD5 digest has 32 hex digits and is never blank, so in the source that check always passes. The model's `Digest` keeps only the length and does not say the characters are hex digits.
- SpriteMap.FindBy: returns the first row with the fingerprint. Rails' `find_by` (app/models/sprite_map/image_map.rb:14) is a single-row query with no ordering, so which row it returns is unspecified when two rows share a fingerprint. The model never builds such a table (`ResolveKeepsFingerprintsUnique`), so the choice does not matter there.
- String order: `Below` compares characters by code point. This matches Ruby's byte-wise `String#<=>` for UTF-8 text. Encodings are not modelled.
- The Paperclip attachment, `url` and the content-type validation (app/models/sprite_map/image_map.rb:7-9, 56-58) are storage-plugin wrappers. The `image` presence check always passes because a file is always attached, so it is not modelled.
- ActiveRecord persistence, serialization, row ids and the database clock (app/models/sprite_map/image_map.rb:2, 5, 15, 75) are represented by a sequence of rows and a `now` parameter.
- Concurrency and races between concurrent creators are not modelled. The source has no concurrency control, and its fingerprint index is not unique.
