/**
 * The fingerprint of an image map: its keys, sorted and joined with '-', fed to a
 * digest. The digest is not modelled; it is a parameter of type `string -> Digest`.
 */
module Fingerprinting {
  import opened SpriteLayout

  /**
   * A hexadecimal MD5 digest. Only its length, 32 characters, is kept; which
   * characters it holds is left to the digest parameter.
   */
  type Digest = s: string | |s| == 32 witness "00000000000000000000000000000000"

  const Separator: char := '-'

  /** Lexicographic order on strings, character by character (a prefix sorts first). */
  predicate Below(a: string, b: string)
  {
    |a| == 0 || (|b| > 0 && (a[0] < b[0] || (a[0] == b[0] && Below(a[1..], b[1..]))))
  }

  lemma {:induction false} BelowTotal(a: string, b: string)
    ensures Below(a, b) || Below(b, a)
  {
    if |a| > 0 && |b| > 0 && a[0] == b[0] {
      BelowTotal(a[1..], b[1..]);
    }
  }

  lemma {:induction false} BelowAntisymmetric(a: string, b: string)
    requires Below(a, b) && Below(b, a)
    ensures a == b
  {
    if |a| > 0 && |b| > 0 {
      BelowAntisymmetric(a[1..], b[1..]);
      assert a == [a[0]] + a[1..] && b == [b[0]] + b[1..];
    }
  }

  lemma {:induction false} BelowTransitive(a: string, b: string, c: string)
    requires Below(a, b) && Below(b, c)
    ensures Below(a, c)
  {
    if |a| > 0 && a[0] == b[0] && b[0] == c[0] {
      BelowTransitive(a[1..], b[1..], c[1..]);
    }
  }

  predicate Sorted(s: seq<string>)
  {
    forall i, j :: 0 <= i < j < |s| ==> Below(s[i], s[j])
  }

  /** Inserts `x` into the sorted `s`. */
  function Insert(x: string, s: seq<string>): (r: seq<string>)
    requires Sorted(s)
    ensures Sorted(r) && multiset(r) == multiset(s) + multiset{x}
  {
    if |s| == 0 then [x]
    else if Below(x, s[0]) then
      assert forall j :: 0 <= j < |s| ==> Below(x, s[j]) by {
        forall j | 0 <= j < |s| ensures Below(x, s[j]) {
          if j > 0 { BelowTransitive(x, s[0], s[j]); }
        }
      }
      [x] + s
    else
      BelowTotal(x, s[0]);
      var rest := Insert(x, s[1..]);
      assert s == [s[0]] + s[1..];
      assert forall j :: 0 <= j < |rest| ==> Below(s[0], rest[j]) by {
        forall j | 0 <= j < |rest| ensures Below(s[0], rest[j]) {
          assert rest[j] in multiset(rest);
          if rest[j] != x {
            assert rest[j] in s[1..];
          }
        }
      }
      [s[0]] + rest
  }

  /** The keys in ascending order, as the library sort orders strings. */
  function SortStrings(s: seq<string>): (r: seq<string>)
    ensures Sorted(r) && multiset(r) == multiset(s)
  {
    if |s| == 0 then []
    else
      assert s == s[..|s| - 1] + [s[|s| - 1]];
      Insert(s[|s| - 1], SortStrings(s[..|s| - 1]))
  }

  /** The head of a sorted sequence is below each of its elements. */
  lemma SortedHeadIsLeast(a: seq<string>, x: string)
    requires Sorted(a) && x in a
    ensures Below(a[0], x)
  {
    var j :| 0 <= j < |a| && a[j] == x;
    if j == 0 { BelowTotal(x, x); }
  }

  /** Two sorted sequences with the same elements are equal. */
  lemma {:induction false} SortedUnique(a: seq<string>, b: seq<string>)
    requires Sorted(a) && Sorted(b) && multiset(a) == multiset(b)
    ensures a == b
  {
    if |a| == 0 {
      assert |multiset(b)| == 0;
    } else {
      assert |b| > 0 by { assert |multiset(b)| == |a|; }
      assert a[0] in multiset(b) && b[0] in multiset(a);
      SortedHeadIsLeast(a, b[0]);
      SortedHeadIsLeast(b, a[0]);
      BelowAntisymmetric(a[0], b[0]);
      var a', b' := a[1..], b[1..];
      assert a == [a[0]] + a' && b == [b[0]] + b';
      assert multiset(a') == multiset(b') by {
        assert multiset(a) == multiset{a[0]} + multiset(a');
        assert multiset(b) == multiset{a[0]} + multiset(b');
        assert multiset(a') == multiset(a) - multiset{a[0]};
        assert multiset(b') == multiset(b) - multiset{a[0]};
      }
      assert Sorted(a') && Sorted(b');
      SortedUnique(a', b');
    }
  }

  /** `parts` joined with `sep` between consecutive elements. */
  function Join(parts: seq<string>, sep: char): (r: string)
    ensures |parts| > 0 ==> parts[0] <= r
  {
    if |parts| == 0 then ""
    else if |parts| == 1 then parts[0]
    else parts[0] + [sep] + Join(parts[1..], sep)
  }

  /** Cuts `s` at every `sep`; the partner of `Join`. */
  function Split(s: string, sep: char): (r: seq<string>)
    ensures |r| > 0
  {
    if |s| == 0 then [""]
    else
      var rest := Split(s[1..], sep);
      if s[0] == sep then [""] + rest else [[s[0]] + rest[0]] + rest[1..]
  }

  lemma {:induction false} SplitPrefix(a: string, t: string, sep: char)
    requires sep !in a
    ensures Split(a + t, sep) == [a + Split(t, sep)[0]] + Split(t, sep)[1..]
  {
    if |a| > 0 {
      SplitPrefix(a[1..], t, sep);
      assert (a + t)[1..] == a[1..] + t;
      assert [a[0]] + (a[1..] + Split(t, sep)[0]) == a + Split(t, sep)[0];
    } else {
      var r := Split(t, sep);
      assert a + t == t && a + r[0] == r[0];
      assert r == [r[0]] + r[1..];
    }
  }

  /** Joining parts that do not contain the separator can be undone. */
  lemma {:induction false} SplitJoin(parts: seq<string>, sep: char)
    requires |parts| > 0
    requires forall i :: 0 <= i < |parts| ==> sep !in parts[i]
    ensures Split(Join(parts, sep), sep) == parts
  {
    if |parts| == 1 {
      SplitPrefix(parts[0], "", sep);
      assert parts[0] + "" == parts[0];
    } else {
      var tail := Join(parts[1..], sep);
      SplitJoin(parts[1..], sep);
      assert Split([sep] + tail, sep) == [""] + Split(tail, sep);
      SplitPrefix(parts[0], [sep] + tail, sep);
      assert parts[0] + [sep] + tail == parts[0] + ([sep] + tail);
      assert parts[0] + "" == parts[0];
      assert parts == [parts[0]] + parts[1..];
    }
  }

  /** The string the digest is taken of: the keys, sorted, joined with '-'. */
  function FingerprintSource<V>(m: seq<(Identifier, V)>): (r: string)
    ensures |m| == 0 ==> r == ""
    ensures |m| == 1 ==> r == m[0].0
  {
    SingleKeySorted(m);
    Join(SortStrings(Keys(m)), Separator)
  }

  /** When no key contains '-', the digest input splits back into the sorted keys. */
  lemma FingerprintSourceSplits<V>(m: seq<(Identifier, V)>)
    requires |m| > 0
    requires forall i :: 0 <= i < |m| ==> Separator !in m[i].0
    ensures Split(FingerprintSource(m), Separator) == SortStrings(Keys(m))
  {
    var sorted := SortStrings(Keys(m));
    assert |sorted| == |multiset(sorted)| == |m|;
    NoSeparatorSorted(m);
    SplitJoin(sorted, Separator);
  }

  lemma SingleKeySorted<V>(m: seq<(Identifier, V)>)
    ensures |m| == 1 ==> SortStrings(Keys(m)) == [m[0].0]
  {
    if |m| == 1 {
      var sorted := SortStrings(Keys(m));
      assert multiset(sorted) == multiset{m[0].0} by { assert Keys(m) == [m[0].0]; }
      assert |sorted| == |multiset(sorted)| == 1;
      assert sorted[0] in multiset(sorted);
    }
  }

  /** The fingerprint of an image map under the digest `md5`. */
  function Fingerprint<V>(m: seq<(Identifier, V)>, md5: string -> Digest): (fp: Digest)
    ensures |m| == 0 ==> fp == md5("")
    ensures |m| == 1 ==> fp == md5(m[0].0)
  {
    md5(FingerprintSource(m))
  }

  function KeySet<V>(m: seq<(Identifier, V)>): set<Identifier>
  {
    set i | 0 <= i < |m| :: m[i].0
  }

  lemma {:induction false} DistinctKeysCount<V>(m: seq<(Identifier, V)>, k: Identifier)
    requires DistinctKeys(m)
    ensures multiset(Keys(m))[k] == if k in KeySet(m) then 1 else 0
  {
    if |m| > 0 {
      var init := m[..|m| - 1];
      DistinctKeysCount(init, k);
      assert Keys(m) == Keys(init) + [m[|m| - 1].0];
      assert KeySet(m) == KeySet(init) + {m[|m| - 1].0} by {
        forall x | x in KeySet(m) ensures x in KeySet(init) + {m[|m| - 1].0} {
          var i :| 0 <= i < |m| && m[i].0 == x;
          if i < |m| - 1 { assert init[i].0 == x; }
        }
      }
      if k == m[|m| - 1].0 {
        assert k !in KeySet(init);
      }
    } else {
      assert KeySet(m) == {};
    }
  }

  /** Two hashes with the same key set have the same multiset of keys. */
  lemma SameKeySetSameKeys<V, W>(m1: seq<(Identifier, V)>, m2: seq<(Identifier, W)>)
    requires DistinctKeys(m1) && DistinctKeys(m2) && KeySet(m1) == KeySet(m2)
    ensures multiset(Keys(m1)) == multiset(Keys(m2))
  {
    forall k ensures multiset(Keys(m1))[k] == multiset(Keys(m2))[k] {
      DistinctKeysCount(m1, k);
      DistinctKeysCount(m2, k);
    }
  }

  /**
   * The fingerprint depends only on the set of keys: any reordering of the keys,
   * and any choice of paths, gives the same digest input and so the same fingerprint.
   */
  lemma FingerprintDependsOnlyOnKeySet<V, W>(m1: seq<(Identifier, V)>, m2: seq<(Identifier, W)>, md5: string -> Digest)
    requires DistinctKeys(m1) && DistinctKeys(m2) && KeySet(m1) == KeySet(m2)
    ensures FingerprintSource(m1) == FingerprintSource(m2)
    ensures Fingerprint(m1, md5) == Fingerprint(m2, md5)
  {
    SameKeySetSameKeys(m1, m2);
    SortedUnique(SortStrings(Keys(m1)), SortStrings(Keys(m2)));
  }

  lemma SortedKeySet<V>(m: seq<(Identifier, V)>)
    ensures forall k :: k in SortStrings(Keys(m)) <==> k in KeySet(m)
  {
    forall k ensures k in SortStrings(Keys(m)) <==> k in KeySet(m) {
      assert k in SortStrings(Keys(m)) <==> k in multiset(Keys(m));
      if k in Keys(m) {
        var i :| 0 <= i < |m| && Keys(m)[i] == k;
        assert m[i].0 == k;
      }
      if k in KeySet(m) {
        var i :| 0 <= i < |m| && m[i].0 == k;
        assert Keys(m)[i] == k;
      }
    }
  }

  /**
   * When no key contains '-' and the hash is not empty, the digest input determines
   * the key set: two such hashes share it exactly when they share their keys.
   */
  lemma FingerprintSourceIdentifiesKeys<V, W>(m1: seq<(Identifier, V)>, m2: seq<(Identifier, W)>)
    requires DistinctKeys(m1) && DistinctKeys(m2) && |m1| > 0 && |m2| > 0
    requires forall i :: 0 <= i < |m1| ==> Separator !in m1[i].0
    requires forall i :: 0 <= i < |m2| ==> Separator !in m2[i].0
    ensures FingerprintSource(m1) == FingerprintSource(m2) <==> KeySet(m1) == KeySet(m2)
  {
    if KeySet(m1) == KeySet(m2) {
      FingerprintDependsOnlyOnKeySet(m1, m2, _ => "00000000000000000000000000000000");
    }
    if FingerprintSource(m1) == FingerprintSource(m2) {
      FingerprintSourceSplits(m1);
      FingerprintSourceSplits(m2);
      SortedKeySet(m1);
      SortedKeySet(m2);
    }
  }

  lemma NoSeparatorSorted<V>(m: seq<(Identifier, V)>)
    requires forall i :: 0 <= i < |m| ==> Separator !in m[i].0
    ensures forall i :: 0 <= i < |SortStrings(Keys(m))| ==> Separator !in SortStrings(Keys(m))[i]
  {
    var s := SortStrings(Keys(m));
    forall i | 0 <= i < |s| ensures Separator !in s[i] {
      assert s[i] in multiset(Keys(m));
      var j :| 0 <= j < |m| && Keys(m)[j] == s[i];
    }
  }

  /**
   * Joining with '-' is not injective once a key contains '-': the hash with the
   * single key "a-b" and the hash with keys "a" and "b" get the same fingerprint.
   */
  lemma SeparatorCollision<V>(p: V, q: V, r: V, md5: string -> Digest)
    ensures FingerprintSource([("a-b", p)]) == FingerprintSource([("a", q), ("b", r)]) == "a-b"
    ensures Fingerprint([("a-b", p)], md5) == Fingerprint([("a", q), ("b", r)], md5)
    ensures KeySet([("a-b", p)]) != KeySet([("a", q), ("b", r)])
  {
    var one, two := [("a-b", p)], [("a", q), ("b", r)];
    assert Keys(two) == ["a", "b"];
    SortTwoKeys();
    assert FingerprintSource(two) == Join(["a", "b"], Separator) == "a-b";
    assert one[0].0 == "a-b" && "a-b" in KeySet(one);
    assert two[0].0 == "a" && two[1].0 == "b";
  }

  lemma SortTwoKeys()
    ensures SortStrings(["a", "b"]) == ["a", "b"]
  {
    assert Below("a", "b");
    SortedUnique(SortStrings(["a", "b"]), ["a", "b"]);
  }


}
