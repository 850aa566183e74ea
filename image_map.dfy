/**
 * `SpriteMap::ImageMap.find_or_create_by_image_map` over an abstract table of
 * persisted image maps: a hit touches the stored row and returns it; a miss lays
 * the images out and creates one row, which the presence validation refuses when
 * the positions hash is blank.
 */
module SpriteMap {
  import opened Wrappers
  import opened SpriteLayout
  import opened Fingerprinting

  /** One persisted image map: what `create!` stores, plus the row's timestamps. */
  datatype ImageMapRecord = ImageMapRecord(fingerprint: Digest, positions: Positions, createdAt: nat, updatedAt: nat)

  /**
   * Why no sheet was stored for an empty image map: the imaging library refuses the
   * 0 x 0 canvas, and the presence validation would refuse the blank positions anyway.
   */
  datatype CreateError = EmptyImageMap

  /** The new table, what the call returned, and how many images it decoded. */
  datatype Outcome = Outcome(rows: seq<ImageMapRecord>, result: Result<ImageMapRecord, CreateError>, decoded: nat)

  /** `find_by(fingerprint:)`: the first row carrying `fp`, if any. */
  function FindBy(rows: seq<ImageMapRecord>, fp: Digest): (r: Option<nat>)
    ensures r.Some? ==> r.value < |rows| && rows[r.value].fingerprint == fp
    ensures r.Some? ==> forall j :: 0 <= j < r.value ==> rows[j].fingerprint != fp
    ensures r.None? ==> forall j :: 0 <= j < |rows| ==> rows[j].fingerprint != fp
  {
    if |rows| == 0 then None
    else if rows[0].fingerprint == fp then Some(0)
    else
      match FindBy(rows[1..], fp)
      case None => None
      case Some(i) => Some(i + 1)
  }

  /** The presence validation holds for every stored row. */
  predicate AllPresent(rows: seq<ImageMapRecord>)
  {
    forall i :: 0 <= i < |rows| ==> |rows[i].positions| > 0
  }

  /** No two rows carry the same fingerprint. */
  predicate UniqueFingerprints(rows: seq<ImageMapRecord>)
  {
    forall i, j :: 0 <= i < j < |rows| ==> rows[i].fingerprint != rows[j].fingerprint
  }

  /** `touch`: only the update timestamp changes. */
  function Touched(r: ImageMapRecord, now: nat): (t: ImageMapRecord)
    ensures t.fingerprint == r.fingerprint && t.positions == r.positions && t.createdAt == r.createdAt
    ensures t.updatedAt == now
  {
    r.(updatedAt := now)
  }

  /** What one call of find-or-create does to the table, as a function of the old table. */
  function Resolve(rows: seq<ImageMapRecord>, m: ImageMap, decode: Path -> Dims, md5: string -> Digest, now: nat): (o: Outcome)
    ensures |rows| <= |o.rows| <= |rows| + 1
    ensures o.result.Success? ==>
      o.result.value.fingerprint == Fingerprint(m, md5) && o.result.value.updatedAt == now && o.result.value in o.rows
    ensures o.result.Failure? ==> o.rows == rows && |m| == 0
  {
    var fp := Fingerprint(m, md5);
    match FindBy(rows, fp)
    case Some(i) =>
      var hit := Touched(rows[i], now);
      assert hit == rows[i := hit][i];
      Outcome(rows[i := hit], Success(hit), 0)
    case None =>
      var positions := Layout(m, decode);
      if |positions| == 0 then Outcome(rows, Failure(EmptyImageMap), |m|)
      else
        var created := ImageMapRecord(fp, positions, now, now);
        assert created == (rows + [created])[|rows|];
        Outcome(rows + [created], Success(created), |m|)
  }

  /**
   * A hit returns the stored row with only its timestamp touched, changes no other
   * row, adds none and decodes no image.
   */
  lemma ResolveHit(rows: seq<ImageMapRecord>, m: ImageMap, decode: Path -> Dims, md5: string -> Digest, now: nat, i: nat)
    requires FindBy(rows, Fingerprint(m, md5)) == Some(i)
    ensures var o := Resolve(rows, m, decode, md5, now);
      && o.decoded == 0
      && o.result == Success(Touched(rows[i], now))
      && |o.rows| == |rows| && o.rows[i] == Touched(rows[i], now)
      && (forall j :: 0 <= j < |rows| && j != i ==> o.rows[j] == rows[j])
  {
  }

  /**
   * A miss decodes every image and appends exactly one row carrying the fingerprint
   * and the computed positions, unless the positions are blank, in which case the
   * table is left as it was.
   */
  lemma ResolveMiss(rows: seq<ImageMapRecord>, m: ImageMap, decode: Path -> Dims, md5: string -> Digest, now: nat)
    requires FindBy(rows, Fingerprint(m, md5)).None?
    ensures var o := Resolve(rows, m, decode, md5, now);
      && o.decoded == |m|
      && (|m| == 0 ==> o.rows == rows && o.result == Failure(EmptyImageMap))
      && (|m| > 0 ==>
            o.result.Success? && o.rows == rows + [o.result.value]
            && o.result.value.fingerprint == Fingerprint(m, md5)
            && o.result.value.positions == Layout(m, decode)
            && o.result.value.createdAt == now)
  {
  }

  /** An empty image map never adds a row to the table. */
  lemma EmptyMapStoresNothing(rows: seq<ImageMapRecord>, decode: Path -> Dims, md5: string -> Digest, now: nat)
    ensures |Resolve(rows, [], decode, md5, now).rows| == |rows|
  {
  }

  /**
   * An empty map shares its digest input "" with a map whose only key is "", so
   * once that map is stored the empty map is served its row.
   */
  lemma EmptyMapHitsEmptyKeyRow(rows: seq<ImageMapRecord>, p: Path, decode: Path -> Dims, md5: string -> Digest, now1: nat, now2: nat)
    ensures var o1 := Resolve(rows, [("", p)], decode, md5, now1);
      var o2 := Resolve(o1.rows, [], decode, md5, now2);
      && o2.result.Success? && o2.decoded == 0 && |o2.rows| == |o1.rows|
      && o2.result.value.positions == o1.result.value.positions
  {
    var empty: ImageMap := [];
    assert FingerprintSource([("", p)]) == "" == FingerprintSource(empty);
    ResolveAgainHits(rows, [("", p)], [], decode, decode, md5, now1, now2);
  }

  /** Find-or-create keeps the presence validation true of every row. */
  lemma ResolveKeepsAllPresent(rows: seq<ImageMapRecord>, m: ImageMap, decode: Path -> Dims, md5: string -> Digest, now: nat)
    requires AllPresent(rows)
    ensures AllPresent(Resolve(rows, m, decode, md5, now).rows)
  {
    var o := Resolve(rows, m, decode, md5, now);
    forall j | 0 <= j < |o.rows| ensures |o.rows[j].positions| > 0 {
      if j < |rows| {
        assert o.rows[j].positions == rows[j].positions;
      }
    }
  }

  /** When rows are only ever added by find-or-create, no fingerprint is stored twice. */
  lemma ResolveKeepsFingerprintsUnique(rows: seq<ImageMapRecord>, m: ImageMap, decode: Path -> Dims, md5: string -> Digest, now: nat)
    requires UniqueFingerprints(rows)
    ensures UniqueFingerprints(Resolve(rows, m, decode, md5, now).rows)
  {
    var o := Resolve(rows, m, decode, md5, now);
    assert forall j :: 0 <= j < |rows| ==> o.rows[j].fingerprint == rows[j].fingerprint;
  }

  /** A call succeeds exactly when it hits a stored row or the image map is not empty. */
  lemma ResolveSucceeds(rows: seq<ImageMapRecord>, m: ImageMap, decode: Path -> Dims, md5: string -> Digest, now: nat)
    ensures Resolve(rows, m, decode, md5, now).result.Success? <==> |m| > 0 || FindBy(rows, Fingerprint(m, md5)).Some?
  {
  }

  /** `find_by` returns the row at `k` when it is the first one carrying `fp`. */
  lemma FindByFirst(rows: seq<ImageMapRecord>, fp: Digest, k: nat)
    requires k < |rows| && rows[k].fingerprint == fp
    requires forall j :: 0 <= j < k ==> rows[j].fingerprint != fp
    ensures FindBy(rows, fp) == Some(k)
  {
  }

  /** After a successful call, the returned row is the one `find_by` finds for its fingerprint. */
  lemma ResolvedRowIsFound(rows: seq<ImageMapRecord>, m: ImageMap, decode: Path -> Dims, md5: string -> Digest, now: nat)
    requires |m| > 0 || FindBy(rows, Fingerprint(m, md5)).Some?
    ensures var o := Resolve(rows, m, decode, md5, now);
      exists k :: FindBy(o.rows, Fingerprint(m, md5)) == Some(k) && o.rows[k] == o.result.value
  {
    ResolveSucceeds(rows, m, decode, md5, now);
    var o := Resolve(rows, m, decode, md5, now);
    var fp := Fingerprint(m, md5);
    match FindBy(rows, fp)
    case Some(i) =>
      assert o.rows == rows[i := Touched(rows[i], now)];
      FindByFirst(o.rows, fp, i);
    case None =>
      assert o.rows == rows + [o.result.value];
      FindByFirst(o.rows, fp, |rows|);
  }

  /**
   * A second call whose digest input equals the first's is a hit on the row the first
   * call returned: it returns that row with the new timestamp, adds no row and decodes
   * no image, whatever images it was given.
   */
  lemma ResolveAgainHits(rows: seq<ImageMapRecord>, m1: ImageMap, m2: ImageMap,
                         decode1: Path -> Dims, decode2: Path -> Dims, md5: string -> Digest, now1: nat, now2: nat)
    requires FingerprintSource(m1) == FingerprintSource(m2)
    requires |m1| > 0 || FindBy(rows, Fingerprint(m1, md5)).Some?
    ensures var o1 := Resolve(rows, m1, decode1, md5, now1);
      var o2 := Resolve(o1.rows, m2, decode2, md5, now2);
      && o2.decoded == 0
      && |o2.rows| == |o1.rows|
      && o2.result == Success(Touched(o1.result.value, now2))
  {
    ResolvedRowIsFound(rows, m1, decode1, md5, now1);
  }

  /**
   * Requests with the same identifiers, in any order and with any paths, resolve to
   * the same stored row: the second one never lays out or decodes anything.
   */
  lemma SameIdentifiersShareRow(rows: seq<ImageMapRecord>, m1: ImageMap, m2: ImageMap,
                                decode1: Path -> Dims, decode2: Path -> Dims, md5: string -> Digest, now1: nat, now2: nat)
    requires DistinctKeys(m1) && DistinctKeys(m2) && KeySet(m1) == KeySet(m2)
    requires |m1| > 0 || FindBy(rows, Fingerprint(m1, md5)).Some?
    ensures var o1 := Resolve(rows, m1, decode1, md5, now1);
      var o2 := Resolve(o1.rows, m2, decode2, md5, now2);
      && o2.decoded == 0 && |o2.rows| == |o1.rows|
      && o2.result.Success?
      && o2.result.value.positions == o1.result.value.positions
      && o2.result.value.fingerprint == o1.result.value.fingerprint
  {
    FingerprintDependsOnlyOnKeySet(m1, m2, md5);
    ResolveAgainHits(rows, m1, m2, decode1, decode2, md5, now1, now2);
  }

  /**
   * Because of the '-' join, a request for the single identifier "a-b" is served the
   * sheet built for the identifiers "a" and "b", whose positions name "a" and "b".
   */
  lemma SeparatorCollisionServesWrongSheet(rows: seq<ImageMapRecord>, pa: Path, pb: Path, pab: Path,
                                           decode: Path -> Dims, md5: string -> Digest, now1: nat, now2: nat)
    requires FindBy(rows, Fingerprint([("a", pa), ("b", pb)], md5)).None?
    ensures var o1 := Resolve(rows, [("a", pa), ("b", pb)], decode, md5, now1);
      var o2 := Resolve(o1.rows, [("a-b", pab)], decode, md5, now2);
      && o2.result.Success?
      && Keys(o2.result.value.positions) == ["a", "b"]
  {
    var m1: ImageMap := [("a", pa), ("b", pb)];
    var m2: ImageMap := [("a-b", pab)];
    SeparatorCollision(pab, pa, pb, md5);
    ResolveAgainHits(rows, m1, m2, decode, decode, md5, now1, now2);
    assert Keys(Layout(m1, decode)) == Keys(m1) == ["a", "b"];
  }

  /** The persisted image maps (the table behind the ActiveRecord class). */
  class ImageMapTable {
    var rows: seq<ImageMapRecord>

    ghost predicate Valid()
      reads this
    {
      AllPresent(rows)
    }

    constructor ()
      ensures Valid() && rows == []
    {
      rows := [];
    }

    /** `touch` on the `i`-th row. */
    method Touch(i: nat, now: nat)
      requires Valid() && i < |rows|
      modifies this
      ensures Valid()
      ensures rows == old(rows)[i := Touched(old(rows)[i], now)]
    {
      rows := rows[i := Touched(rows[i], now)];
    }

    /**
     * `create_sprite_image`: an empty positions hash yields no sheet and nothing is
     * stored; otherwise `create!` appends one row.
     */
    method CreateSpriteImage(fingerprint: Digest, positions: Positions, now: nat)
      returns (r: Result<ImageMapRecord, CreateError>)
      requires Valid()
      modifies this
      ensures Valid()
      ensures |positions| == 0 ==> r == Failure(EmptyImageMap) && rows == old(rows)
      ensures |positions| > 0 ==>
        r == Success(ImageMapRecord(fingerprint, positions, now, now)) && rows == old(rows) + [r.value]
    {
      if |positions| == 0 {
        r := Failure(EmptyImageMap);
      } else {
        var created := ImageMapRecord(fingerprint, positions, now, now);
        rows := rows + [created];
        r := Success(created);
      }
    }

    /** `find_or_create_by_image_map`, returning also how many images it decoded. */
    method FindOrCreateByImageMap(imageMap: ImageMap, decode: Path -> Dims, md5: string -> Digest, now: nat)
      returns (r: Result<ImageMapRecord, CreateError>, decoded: nat)
      requires Valid()
      modifies this
      ensures Valid()
      ensures var o := Resolve(old(rows), imageMap, decode, md5, now);
        rows == o.rows && r == o.result && decoded == o.decoded
      ensures r.Success? ==> |r.value.positions| > 0
    {
      var fingerprint := Fingerprint(imageMap, md5);
      var found := FindBy(rows, fingerprint);
      if found.Some? {
        Touch(found.value, now);
        r := Success(rows[found.value]);
        decoded := 0;
      } else {
        var positions, totalWidth, totalHeight, n := LayoutImages(imageMap, decode);
        r := CreateSpriteImage(fingerprint, positions, now);
        decoded := n;
      }
    }
  }
}
