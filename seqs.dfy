/** Sequence and string operations the codec builds on: `concat`, `str::matches().count()`,
    `str::replace` with an empty or non-empty replacement. */
module Seqs {
  import opened Common

  /** The concatenation of `ss` in order (Rust `concat` / `join("")`). */
  function Flatten<T>(ss: seq<seq<T>>): seq<T>
  {
    if |ss| == 0 then [] else Flatten(ss[..|ss| - 1]) + ss[|ss| - 1]
  }

  lemma {:induction false} FlattenAppend<T>(a: seq<seq<T>>, b: seq<seq<T>>)
    ensures Flatten(a + b) == Flatten(a) + Flatten(b)
    decreases |b|
  {
    if |b| == 0 {
      assert a + b == a;
    } else {
      assert (a + b)[..|a + b| - 1] == a + b[..|b| - 1];
      FlattenAppend(a, b[..|b| - 1]);
    }
  }

  /** Flattening pieces that all have length `n`: the result has `n * |ss|` elements. */
  lemma {:induction false} FlattenLength<T>(ss: seq<seq<T>>, n: nat)
    requires forall i :: 0 <= i < |ss| ==> |ss[i]| == n
    ensures |Flatten(ss)| == n * |ss|
  {
    if |ss| > 0 {
      FlattenLength(ss[..|ss| - 1], n);
    }
  }

  /** Flattening pieces that all have length `n`: piece `k` sits at offset `k * n`. */
  lemma {:induction false} FlattenSlice<T>(ss: seq<seq<T>>, n: nat, k: nat)
    requires forall i :: 0 <= i < |ss| ==> |ss[i]| == n
    requires k < |ss|
    ensures |Flatten(ss)| == n * |ss|
    ensures k * n + n <= |Flatten(ss)| && Flatten(ss)[k * n .. k * n + n] == ss[k]
  {
    FlattenLength(ss, n);
    var init := ss[..|ss| - 1];
    FlattenLength(init, n);
    assert |Flatten(init)| == n * |ss| - n;
    if k < |ss| - 1 {
      FlattenSlice(init, n, k);
      assert k * n + n <= (|ss| - 1) * n by {
        MulLe(k + 1, |ss| - 1, n);
      }
      assert Flatten(ss)[k * n .. k * n + n] == Flatten(init)[k * n .. k * n + n];
    } else {
      assert k * n == n * |ss| - n;
    }
  }

  /** A property every element of every piece has, every element of the flattening has. */
  lemma {:induction false} FlattenAll<T>(ss: seq<seq<T>>, p: T -> bool)
    requires forall i, j :: 0 <= i < |ss| && 0 <= j < |ss[i]| ==> p(ss[i][j])
    ensures forall j :: 0 <= j < |Flatten(ss)| ==> p(Flatten(ss)[j])
  {
    if |ss| > 0 {
      FlattenAll(ss[..|ss| - 1], p);
    }
  }

  /** A value absent from the concatenation is absent from every piece. */
  lemma {:induction false} FlattenExcludes<T>(ss: seq<seq<T>>, c: T)
    requires c !in Flatten(ss)
    ensures forall i :: 0 <= i < |ss| ==> c !in ss[i]
  {
    if |ss| > 0 {
      var init := ss[..|ss| - 1];
      assert Flatten(ss) == Flatten(init) + ss[|ss| - 1];
      FlattenExcludes(init, c);
      assert forall i :: 0 <= i < |ss| - 1 ==> ss[i] == init[i];
    }
  }

  lemma AppendAssoc<T>(x: seq<T>, y: seq<T>, z: seq<T>)
    ensures (x + y) + z == x + (y + z)
  {
  }

  /** Flattening pieces that all have length `n`: element `x` of piece `y` is element
      `y * n + x` of the result. */
  lemma FlattenIndex<T>(ss: seq<seq<T>>, n: nat, y: nat, x: nat)
    requires forall i :: 0 <= i < |ss| ==> |ss[i]| == n
    requires y < |ss| && x < n
    ensures y * n + x < |Flatten(ss)| && Flatten(ss)[y * n + x] == ss[y][x]
  {
    FlattenSlice(ss, n, y);
    assert Flatten(ss)[y * n + x] == Flatten(ss)[y * n .. y * n + n][x];
  }

  /** Number of occurrences of `c` in `s`. */
  function Count<T(==)>(s: seq<T>, c: T): nat
  {
    if s == [] then 0 else (if s[0] == c then 1 else 0) + Count(s[1..], c)
  }

  lemma {:induction false} CountAppend<T>(a: seq<T>, b: seq<T>, c: T)
    ensures Count(a + b, c) == Count(a, c) + Count(b, c)
  {
    if a != [] {
      assert (a + b)[1..] == a[1..] + b;
      CountAppend(a[1..], b, c);
    } else {
      assert a + b == b;
    }
  }

  lemma {:induction false} CountAbsent<T>(s: seq<T>, c: T)
    ensures Count(s, c) == 0 <==> c !in s
  {
    if s != [] {
      CountAbsent(s[1..], c);
      assert s == [s[0]] + s[1..];
    }
  }

  /** `s.replace(c, "")`: every occurrence of `c` dropped, everything else kept in order. */
  function RemoveAll<T(==)>(s: seq<T>, c: T): (r: seq<T>)
    ensures c !in r
    ensures |r| == |s| - Count(s, c)
    ensures c !in s ==> r == s
  {
    if s == [] then []
    else
      assert s == [s[0]] + s[1..];
      (if s[0] == c then [] else [s[0]]) + RemoveAll(s[1..], c)
  }

  lemma {:induction false} RemoveAllAppend<T>(a: seq<T>, b: seq<T>, c: T)
    ensures RemoveAll(a + b, c) == RemoveAll(a, c) + RemoveAll(b, c)
  {
    if a != [] {
      var head := if a[0] == c then [] else [a[0]];
      assert (a + b)[0] == a[0];
      assert (a + b)[1..] == a[1..] + b;
      assert RemoveAll(a + b, c) == head + RemoveAll(a[1..] + b, c);
      RemoveAllAppend(a[1..], b, c);
      AppendAssoc(head, RemoveAll(a[1..], c), RemoveAll(b, c));
    } else {
      assert a + b == b;
    }
  }

  /** `pat` occurs in `s` starting at index `i`. */
  predicate OccursAt<T(==)>(s: seq<T>, pat: seq<T>, i: nat)
  {
    i + |pat| <= |s| && s[i .. i + |pat|] == pat
  }

  predicate Occurs<T(==)>(s: seq<T>, pat: seq<T>)
  {
    exists i: nat | i <= |s| :: OccursAt(s, pat, i)
  }

  /** An occurrence of `pat` in a suffix of `s` is an occurrence in `s`. */
  lemma OccursInSuffix<T>(s: seq<T>, pat: seq<T>, k: nat)
    requires k <= |s|
    ensures Occurs(s[k..], pat) ==> Occurs(s, pat)
  {
    if Occurs(s[k..], pat) {
      var i: nat :| i <= |s[k..]| && OccursAt(s[k..], pat, i);
      assert s[k..][i .. i + |pat|] == s[k + i .. k + i + |pat|];
      assert OccursAt(s, pat, k + i);
    }
  }

  /** `str::replace(pat, rep)`: every non-overlapping occurrence of `pat`, scanned left to right,
      is replaced by `rep`; without an occurrence there is nothing to replace. */
  function ReplaceAll<T(==)>(s: seq<T>, pat: seq<T>, rep: seq<T>): (r: seq<T>)
    requires |pat| > 0
    ensures !Occurs(s, pat) ==> r == s
    decreases |s|
  {
    if |s| < |pat| then s
    else if s[..|pat|] == pat then
      assert OccursAt(s, pat, 0);
      rep + ReplaceAll(s[|pat|..], pat, rep)
    else
      OccursInSuffix(s, pat, 1);
      assert s == [s[0]] + s[1..];
      [s[0]] + ReplaceAll(s[1..], pat, rep)
  }

  /** Replacing a one-element pattern by nothing is removing that element: the two uses of
      `str::replace` agree. */
  lemma {:induction false} ReplaceIsRemove<T>(s: seq<T>, c: T)
    ensures ReplaceAll(s, [c], []) == RemoveAll(s, c)
  {
    if |s| > 0 {
      assert s[..1] == [s[0]];
      ReplaceIsRemove(s[1..], c);
    }
  }
}
