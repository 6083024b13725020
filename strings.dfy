/**
  The two `std::string` helpers of the library: `d3l_str_erase`, which keeps
  removing a sub string until none is left, and `d3l_str_replace`, which
  replaces every occurrence left to right. Both edit the string they are given
  in place; here the string goes in as a parameter and its final value comes
  back as a result, next to the status code the C++ function returns.
*/
module StrOps {
  import opened Options

  /** The characters of `s` from index `i` on begin with `pat`. */
  predicate MatchesAt(s: string, pat: string, i: nat)
    decreases |pat|
  {
    |pat| == 0 || (i < |s| && s[i] == pat[0] && MatchesAt(s, pat[1..], i + 1))
  }

  /** `pat` occurs in `s` at index `i`. */
  predicate OccursAt(s: string, pat: string, i: nat)
  {
    i + |pat| <= |s| && MatchesAt(s, pat, i)
  }

  /** Matching character by character is comparing with the slice. */
  lemma {:induction false} OccursAtSlice(s: string, pat: string, i: nat)
    requires i + |pat| <= |s|
    ensures OccursAt(s, pat, i) <==> s[i..i + |pat|] == pat
    decreases |pat|
  {
    if |pat| > 0 {
      OccursAtSlice(s, pat[1..], i + 1);
      assert s[i..i + |pat|] == [s[i]] + s[i + 1..i + |pat|];
      assert pat == [pat[0]] + pat[1..];
    }
  }

  /** `pat` occurs nowhere in `s`. */
  ghost predicate Absent(s: string, pat: string)
  {
    forall j: nat :: !OccursAt(s, pat, j)
  }

  /**
    `std::string::find(pat, from)`: the first index at or after `from` where
    `pat` occurs, or `None` for `npos`. A start past the end finds nothing; an
    empty pattern is found at `from` whenever `from <= |s|`.
  */
  function Find(s: string, pat: string, from: nat): (r: Option<nat>)
    ensures r.Some? ==> from <= r.value && r.value + |pat| <= |s|
    decreases |s| - from
  {
    if from + |pat| > |s| then None
    else if MatchesAt(s, pat, from) then Some(from)
    else Find(s, pat, from + 1)
  }

  /** A found index is an occurrence. */
  lemma {:induction false} FindFound(s: string, pat: string, from: nat)
    requires Find(s, pat, from).Some?
    ensures OccursAt(s, pat, Find(s, pat, from).value)
    decreases |s| - from
  {
    if !MatchesAt(s, pat, from) {
      FindFound(s, pat, from + 1);
    }
  }

  /** `npos` means there is no occurrence at or after `from`. */
  lemma {:induction false} FindNone(s: string, pat: string, from: nat)
    requires Find(s, pat, from).None?
    ensures forall j: nat :: from <= j ==> !OccursAt(s, pat, j)
    decreases |s| - from
  {
    if from + |pat| <= |s| {
      FindNone(s, pat, from + 1);
    }
  }

  /** A found index is the first occurrence at or after `from`. */
  lemma {:induction false} FindLeast(s: string, pat: string, from: nat)
    requires Find(s, pat, from).Some?
    ensures forall j: nat :: from <= j < Find(s, pat, from).value ==> !OccursAt(s, pat, j)
    decreases |s| - from
  {
    if !MatchesAt(s, pat, from) {
      FindLeast(s, pat, from + 1);
    }
  }

  lemma {:induction false} OccursShift(s: string, pat: string, k: nat)
    requires k <= |s|
    ensures forall j: nat :: OccursAt(s[k..], pat, j) <==> OccursAt(s, pat, j + k)
  {
    forall j: nat
      ensures OccursAt(s[k..], pat, j) <==> OccursAt(s, pat, j + k)
    {
      if j + |pat| <= |s[k..]| {
        OccursAtSlice(s[k..], pat, j);
        OccursAtSlice(s, pat, j + k);
        assert s[k..][j..j + |pat|] == s[j + k..j + k + |pat|];
      }
    }
  }

  /** Searching from `k` is searching the suffix that starts at `k`, shifted by `k`. */
  lemma {:induction false} FindSuffix(s: string, pat: string, k: nat)
    requires k <= |s|
    ensures Find(s, pat, k).None? <==> Find(s[k..], pat, 0).None?
    ensures Find(s, pat, k).Some? ==> Find(s[k..], pat, 0) == Some(Find(s, pat, k).value - k)
  {
    OccursShift(s, pat, k);
    var r1, r2 := Find(s, pat, k), Find(s[k..], pat, 0);
    if r1.Some? {
      var i := r1.value;
      FindFound(s, pat, k);
      assert OccursAt(s[k..], pat, i - k);
      if r2.None? {
        FindNone(s[k..], pat, 0);
      }
      var m := r2.value;
      FindFound(s[k..], pat, 0);
      assert OccursAt(s, pat, m + k);
      FindLeast(s, pat, k);
      FindLeast(s[k..], pat, 0);
      assert m == i - k;
    } else if r2.Some? {
      FindFound(s[k..], pat, 0);
      FindNone(s, pat, k);
      assert false;
    }
  }

  /**
    What `d3l_str_erase` leaves behind: remove the first occurrence and search
    again from the start, until there is none. Pieces that meet across a
    removed occurrence are searched again, so the result has no occurrence at
    all, and it is never longer than the input.
  */
  function EraseAll(s: string, sub: string): (r: string)
    requires |sub| > 0
    ensures Absent(r, sub)
    ensures |r| <= |s|
    decreases |s|
  {
    match Find(s, sub, 0)
    case None => FindNone(s, sub, 0); s
    case Some(i) => EraseAll(s[..i] + s[i + |sub|..], sub)
  }

  /** An erase changes the string exactly when the sub string occurs in it. */
  lemma {:induction false} EraseAllUnchangedIff(s: string, sub: string)
    requires |sub| > 0
    ensures EraseAll(s, sub) == s <==> Absent(s, sub)
  {
    match Find(s, sub, 0)
    case None =>
    case Some(i) =>
      FindFound(s, sub, 0);
      var t := s[..i] + s[i + |sub|..];
      assert |EraseAll(t, sub)| <= |t| < |s|;
  }

  /** Erasing twice is erasing once. */
  lemma {:induction false} EraseAllIdempotent(s: string, sub: string)
    requires |sub| > 0
    ensures EraseAll(EraseAll(s, sub), sub) == EraseAll(s, sub)
  {
    EraseAllUnchangedIff(EraseAll(s, sub), sub);
  }

  /** Removing "ab" from "aabb" joins an "a" and a "b" into a new "ab", which goes too. */
  lemma {:induction false} EraseAllRescans()
    ensures EraseAll("aabb", "ab") == ""
  {
    assert OccursAt("aabb", "ab", 1);
    assert !OccursAt("aabb", "ab", 0);
    assert Find("aabb", "ab", 0) == Some(1);
    assert "aabb"[..1] + "aabb"[3..] == "ab";
    assert Find("ab", "ab", 0) == Some(0);
    assert "ab"[..0] + "ab"[2..] == "";
  }

  /** One pass of the erase loop: removing the first occurrence does not change the final result. */
  lemma {:induction false} EraseStep(s: string, sub: string)
    requires |sub| > 0 && Find(s, sub, 0).Some?
    ensures var i := Find(s, sub, 0).value;
            |s[..i] + s[i + |sub|..]| < |s| &&
            EraseAll(s[..i] + s[i + |sub|..], sub) == EraseAll(s, sub)
  {
  }

  /** `d3l_str_erase`: erase every occurrence of `sub` from `str`; the status is always 0. */
  method Erase(str: string, sub: string) returns (res: string, status: int)
    requires |sub| > 0
    ensures res == EraseAll(str, sub)
    ensures status == 0
  {
    res := str;
    var idx := Find(res, sub, 0);
    while idx.Some?
      invariant idx == Find(res, sub, 0)
      invariant EraseAll(res, sub) == EraseAll(str, sub)
      decreases |res|
    {
      var next := res[..idx.value] + res[idx.value + |sub|..];
      assert |next| < |res| && EraseAll(next, sub) == EraseAll(res, sub) by {
        EraseStep(res, sub);
      }
      res := next;
      idx := Find(res, sub, 0);
    }
    assert res == EraseAll(res, sub);
    status := 0;
  }

  /**
    What `d3l_str_replace` computes on the original string: the leftmost
    occurrence is replaced and the search goes on after it in the original
    text, so occurrences do not overlap and the inserted text is never searched.
  */
  function ReplaceAll(s: string, src: string, dst: string): (r: string)
    requires |src| > 0
    decreases |s|
  {
    match Find(s, src, 0)
    case None => s
    case Some(i) => s[..i] + dst + ReplaceAll(s[i + |src|..], src, dst)
  }

  /**
    Replace-all written as a plain left-to-right scan, without `find`: at each
    position either the pattern starts here, and is replaced and skipped, or
    one character is kept.
  */
  function ReplaceScan(s: string, src: string, dst: string): string
    requires |src| > 0
    decreases |s|
  {
    if |s| < |src| then s
    else if s[..|src|] == src then dst + ReplaceScan(s[|src|..], src, dst)
    else [s[0]] + ReplaceScan(s[1..], src, dst)
  }

  /** The `find`-driven replace-all is the left-to-right, non-overlapping scan. */
  lemma {:induction false} ReplaceAllIsScan(s: string, src: string, dst: string)
    requires |src| > 0
    ensures ReplaceAll(s, src, dst) == ReplaceScan(s, src, dst)
    decreases |s|
  {
    if |s| < |src| {
      assert Find(s, src, 0) == None;
    } else if s[..|src|] == src {
      assert ReplaceAll(s, src, dst) == dst + ReplaceAll(s[|src|..], src, dst) by {
        OccursAtSlice(s, src, 0);
        assert Find(s, src, 0) == Some(0);
        ReplaceAllUnfold(s, src, dst, 0);
        assert s[..0] == [];
      }
      ReplaceAllIsScan(s[|src|..], src, dst);
    } else {
      assert ReplaceAll(s, src, dst) == [s[0]] + ReplaceAll(s[1..], src, dst) by {
        OccursAtSlice(s, src, 0);
        ReplaceAllKeep(s, src, dst);
      }
      ReplaceAllIsScan(s[1..], src, dst);
    }
  }

  /** Where the pattern does not start at the first character, that character is kept. */
  lemma {:induction false} ReplaceAllKeep(s: string, src: string, dst: string)
    requires |src| > 0 && |s| > 0 && !MatchesAt(s, src, 0)
    ensures ReplaceAll(s, src, dst) == [s[0]] + ReplaceAll(s[1..], src, dst)
  {
    assert Find(s, src, 0) == Find(s, src, 1);
    if Find(s, src, 1).Some? {
      var i := Find(s, src, 1).value;
      var rest := ReplaceAll(s[i + |src|..], src, dst);
      assert ReplaceAll(s, src, dst) == s[..i] + dst + rest by {
        ReplaceAllUnfold(s, src, dst, i);
      }
      assert ReplaceAll(s[1..], src, dst) == s[1..i] + dst + rest by {
        ReplaceAllFrom(s, src, dst, 1);
      }
      ConsJoin(s, i, dst, rest);
    } else {
      ReplaceDone(s, src, dst, 1);
      assert [s[0]] + s[1..] == s;
    }
  }

  lemma {:induction false} ConsJoin(s: string, i: nat, d: string, r: string)
    requires 1 <= i <= |s|
    ensures [s[0]] + (s[1..i] + d + r) == s[..i] + d + r
  {
    assert [s[0]] + s[1..i] == s[..i];
  }

  /** The number of occurrences that a left-to-right, non-overlapping scan meets. */
  function Count(s: string, src: string): (n: nat)
    requires |src| > 0
    ensures n == 0 <==> Absent(s, src)
    decreases |s|
  {
    match Find(s, src, 0)
    case None => FindNone(s, src, 0); 0
    case Some(i) => FindFound(s, src, 0); 1 + Count(s[i + |src|..], src)
  }

  /** If the pattern does not occur, replacing leaves the string as it was. */
  lemma {:induction false} ReplaceAllAbsent(s: string, src: string, dst: string)
    requires |src| > 0 && Absent(s, src)
    ensures ReplaceAll(s, src, dst) == s
  {
    if Find(s, src, 0).Some? {
      FindFound(s, src, 0);
    }
  }

  /** Each replacement changes the length by `|dst| - |src|`. */
  lemma {:induction false} ReplaceAllLength(s: string, src: string, dst: string)
    requires |src| > 0
    ensures |ReplaceAll(s, src, dst)| == |s| + Count(s, src) * (|dst| - |src|)
    decreases |s|
  {
    match Find(s, src, 0)
    case None =>
      assert Count(s, src) == 0;
    case Some(i) =>
      var rest := s[i + |src|..];
      ReplaceAllLength(rest, src, dst);
      var c, d := Count(rest, src), |dst| - |src|;
      assert |s| == i + |src| + |rest|;
      assert Count(s, src) == 1 + c;
      MulSucc(c, d);
  }

  lemma {:induction false} MulSucc(c: nat, d: int)
    ensures (1 + c) * d == d + c * d
  {
  }

  /** Replacing a pattern by itself gives back the original string. */
  lemma {:induction false} ReplaceAllIdentity(s: string, src: string)
    requires |src| > 0
    ensures ReplaceAll(s, src, src) == s
    decreases |s|
  {
    match Find(s, src, 0)
    case None =>
    case Some(i) =>
      ReplaceAllIdentity(s[i + |src|..], src);
      assert s[..i] + src + s[i + |src|..] == s by {
        FindFound(s, src, 0);
        OccursAtSlice(s, src, i);
        assert s[i..i + |src|] == src;
        assert s == s[..i] + s[i..i + |src|] + s[i + |src|..];
      }
  }

  /** `n` copies of `p`, one after the other. */
  function Copies(p: string, n: nat): string
  {
    if n == 0 then [] else p + Copies(p, n - 1)
  }

  /**
    Inserted text is not searched again: `n` back-to-back copies of `src` turn
    into `n` copies of `dst`, even when `dst` itself contains `src`.
  */
  lemma {:induction false} ReplaceAllCopies(src: string, dst: string, n: nat)
    requires |src| > 0
    ensures ReplaceAll(Copies(src, n), src, dst) == Copies(dst, n)
  {
    if n > 0 {
      var s, rest := Copies(src, n), Copies(src, n - 1);
      assert s == src + rest;
      assert Find(s, src, 0) == Some(0) by {
        assert s[..|src|] == src;
        OccursAtSlice(s, src, 0);
      }
      assert ReplaceAll(s, src, dst) == dst + ReplaceAll(rest, src, dst) by {
        ReplaceAllUnfold(s, src, dst, 0);
        assert s[|src|..] == rest;
      }
      ReplaceAllCopies(src, dst, n - 1);
    }
  }

  /** "aaa" with "a" -> "aa" gives "aaaaaa" (and the loop stops). */
  lemma {:induction false} ReplaceAllSkipsInserted()
    ensures ReplaceAll("aaa", "a", "aa") == "aaaaaa"
  {
    ReplaceAllCopies("a", "aa", 3);
    assert Copies("a", 3) == "aaa";
    assert Copies("aa", 3) == "aaaaaa";
  }

  /** Unlike erase, a replace by the empty string does not rescan: "aabb" keeps an "ab". */
  lemma {:induction false} ReplaceAllDoesNotRescan()
    ensures ReplaceAll("aabb", "ab", "") == "ab"
    ensures EraseAll("aabb", "ab") == ""
  {
    assert OccursAt("aabb", "ab", 1);
    assert !OccursAt("aabb", "ab", 0);
    assert Find("aabb", "ab", 0) == Some(1);
    assert "aabb"[..1] == "a" && "aabb"[3..] == "b";
    assert Find("b", "ab", 0) == None;
    EraseAllRescans();
  }

  /** Replace-all unfolded once at the occurrence `Find` reports. */
  lemma {:induction false} ReplaceAllUnfold(x: string, src: string, dst: string, m: nat)
    requires |src| > 0 && Find(x, src, 0) == Some(m)
    ensures ReplaceAll(x, src, dst) == x[..m] + dst + ReplaceAll(x[m + |src|..], src, dst)
  {
  }

  /** Replace-all of the suffix at `k`, unfolded once at the occurrence `Find` reports from `k`. */
  lemma {:induction false} ReplaceAllFrom(s: string, src: string, dst: string, k: nat)
    requires |src| > 0 && k <= |s| && Find(s, src, k).Some?
    ensures var i := Find(s, src, k).value;
            ReplaceAll(s[k..], src, dst) == s[k..i] + dst + ReplaceAll(s[i + |src|..], src, dst)
  {
    var i := Find(s, src, k).value;
    var rest := s[k..];
    var m := i - k;
    assert Find(rest, src, 0) == Some(m) by {
      FindSuffix(s, src, k);
    }
    ReplaceAllUnfold(rest, src, dst, m);
    assert rest[..m] == s[k..i];
    assert rest[m + |src|..] == s[i + |src|..];
  }

  /** Splicing `dst` over `s[i..i + n]`, seen from the cursor `k <= i`. */
  lemma {:induction false} SpliceSlices(s: string, k: nat, i: nat, n: nat, dst: string, r: string)
    requires k <= i && i + n <= |s|
    ensures var t := s[..i] + dst + s[i + n..];
            i + |dst| <= |t| &&
            t[..i + |dst|] + r == s[..k] + (s[k..i] + dst + r) &&
            t[i + |dst|..] == s[i + n..]
  {
    var t := s[..i] + dst + s[i + n..];
    assert t[..i + |dst|] == s[..i] + dst;
    assert s[..k] + s[k..i] == s[..i];
  }

  /**
    One pass of the replace loop: replacing the occurrence found from `k` and
    resuming after the inserted text keeps "done part + replace-all of the
    rest" equal to what it was.
  */
  lemma {:induction false} ReplaceStep(s: string, src: string, dst: string, k: nat)
    requires |src| > 0 && k <= |s| && Find(s, src, k).Some?
    ensures var i := Find(s, src, k).value;
            var t := s[..i] + dst + s[i + |src|..];
            i + |dst| <= |t| &&
            t[..i + |dst|] + ReplaceAll(t[i + |dst|..], src, dst) == s[..k] + ReplaceAll(s[k..], src, dst)
  {
    var i := Find(s, src, k).value;
    ReplaceAllFrom(s, src, dst, k);
    SpliceSlices(s, k, i, |src|, dst, ReplaceAll(s[i + |src|..], src, dst));
  }

  /** When nothing is found from `k` on, the rest of the string is already final. */
  lemma {:induction false} ReplaceDone(s: string, src: string, dst: string, k: nat)
    requires |src| > 0 && k <= |s| && Find(s, src, k).None?
    ensures s[..k] + ReplaceAll(s[k..], src, dst) == s
  {
    FindSuffix(s, src, k);
    assert s[..k] + s[k..] == s;
  }

  /** `d3l_str_replace`: replace `src` by `dst` throughout `str`; the status is always 0. */
  method Replace(str: string, src: string, dst: string) returns (res: string, status: int)
    requires |src| > 0
    ensures res == ReplaceAll(str, src, dst)
    ensures status == 0
  {
    res := str;
    var idx: nat := 0;
    var found := Find(res, src, idx);
    assert res[..0] + res[0..] == res;
    while found.Some?
      invariant idx <= |res|
      invariant found == Find(res, src, idx)
      invariant res[..idx] + ReplaceAll(res[idx..], src, dst) == ReplaceAll(str, src, dst)
      decreases |res| - idx
    {
      var i := found.value;
      var next := res[..i] + dst + res[i + |src|..];
      assert i + |dst| <= |next| && |next| - (i + |dst|) < |res| - idx &&
        next[..i + |dst|] + ReplaceAll(next[i + |dst|..], src, dst)
          == res[..idx] + ReplaceAll(res[idx..], src, dst) by {
        ReplaceStep(res, src, dst, idx);
      }
      res := next;
      idx := i + |dst|;
      found := Find(res, src, idx);
    }
    assert res[..idx] + ReplaceAll(res[idx..], src, dst) == res by {
      ReplaceDone(res, src, dst, idx);
    }
    status := 0;
  }
}
