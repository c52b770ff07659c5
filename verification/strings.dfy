/** Text primitives the script relies on: Python's `in`, `str.rfind`,
    `str.rstrip`, slicing, and `re.sub` with a pattern that is a literal string
    (optionally with `re.IGNORECASE`), together with the general facts about
    `re.sub` that the rest of the model uses. */
module Strings {

  datatype Option<+T> = None | Some(value: T)

  /** ASCII lower-casing: the case folding `re.IGNORECASE` applies to ASCII letters. */
  function Fold(c: char): char
  {
    if 'A' <= c <= 'Z' then (c as int + 32) as char else c
  }

  /** Character equality, ignoring ASCII case when `ignoreCase` holds. */
  predicate Same(a: char, b: char, ignoreCase: bool)
  {
    if ignoreCase then Fold(a) == Fold(b) else a == b
  }

  /** `p` occurs in `s` starting at index `k`. */
  predicate MatchAt(s: string, p: string, k: int, ignoreCase: bool)
  {
    0 <= k && k + |p| <= |s| &&
    forall i :: 0 <= i < |p| ==> Same(s[k + i], p[i], ignoreCase)
  }

  ghost predicate Occurs(s: string, p: string, ignoreCase: bool)
  {
    exists k :: MatchAt(s, p, k, ignoreCase)
  }

  /** `s[j..j + |rep|]` is exactly `rep`. */
  predicate BlockAt(s: string, rep: string, j: int)
  {
    0 <= j && j + |rep| <= |s| &&
    forall i, m :: 0 <= i < |rep| && 0 <= m < |s| && m == j + i ==> s[m] == rep[i]
  }

  /** Leftmost occurrence of `p` in `s` at or after index `from`
      (that it is the leftmost is `FindFromFirst`). */
  function FindFrom(s: string, p: string, from: nat, ignoreCase: bool): (r: Option<nat>)
    ensures r.Some? ==> from <= r.value && MatchAt(s, p, r.value, ignoreCase)
    decreases |s| - from
  {
    if |s| < from + |p| then None
    else if MatchAt(s, p, from, ignoreCase) then Some(from)
    else FindFrom(s, p, from + 1, ignoreCase)
  }

  /** The search finds an occurrence whenever there is one, and none before it. */
  lemma {:induction false} FindFromFirst(s: string, p: string, from: nat, ic: bool, k: int)
    requires from <= k && MatchAt(s, p, k, ic)
    ensures FindFrom(s, p, from, ic).Some? && FindFrom(s, p, from, ic).value <= k
    decreases |s| - from
  {
    if from < k && !MatchAt(s, p, from, ic) {
      FindFromFirst(s, p, from + 1, ic, k);
    }
  }

  /** Python's `p in s`: a case-sensitive substring test. */
  function Contains(s: string, p: string): (r: bool)
    ensures r <==> Occurs(s, p, false)
  {
    assert forall k :: MatchAt(s, p, k, false) ==> FindFrom(s, p, 0, false).Some? by {
      forall k | MatchAt(s, p, k, false) ensures FindFrom(s, p, 0, false).Some? {
        FindFromFirst(s, p, 0, false, k);
      }
    }
    FindFrom(s, p, 0, false).Some?
  }

  /** Python's `s.rfind(p)`: the last index at which `p` starts, or -1. */
  function RFind(s: string, p: string): (r: int)
    ensures -1 <= r
    ensures r >= 0 ==> MatchAt(s, p, r, false)
    ensures forall k :: MatchAt(s, p, k, false) ==> k <= r
  {
    RFindAtOrBelow(s, p, |s| - |p|)
  }

  function RFindAtOrBelow(s: string, p: string, k: int): (r: int)
    ensures -1 <= r && (k >= -1 ==> r <= k)
    ensures r >= 0 ==> MatchAt(s, p, r, false)
    ensures forall j :: j <= k && MatchAt(s, p, j, false) ==> j <= r
    decreases k + 1
  {
    if k < 0 then -1
    else if MatchAt(s, p, k, false) then k
    else RFindAtOrBelow(s, p, k - 1)
  }

  /** Python's `s.rstrip(c)` for one character `c`: every trailing `c` is dropped.
      The three postconditions determine the result. */
  function RStrip(s: string, c: char): (r: string)
    ensures |r| <= |s| && r == s[..|r|]
    ensures forall i :: |r| <= i < |s| ==> s[i] == c
    ensures r == [] || r[|r| - 1] != c
  {
    if s != [] && s[|s| - 1] == c then RStrip(s[..|s| - 1], c) else s
  }

  /** Python's `s[lo:hi]`: a negative index counts from the end, and indices
      outside the string are clamped to it. */
  function Slice(s: string, lo: int, hi: int): (r: string)
    ensures 0 <= lo <= hi <= |s| ==> r == s[lo..hi]
    ensures -|s| <= lo < 0 && 0 <= hi <= |s| ==>
              r == if |s| + lo <= hi then s[|s| + lo..hi] else []
    ensures lo < 0 ==> |r| <= -lo
  {
    var a := Clamp(lo, |s|);
    var b := Clamp(hi, |s|);
    if a <= b then s[a..b] else []
  }

  function Clamp(i: int, n: nat): (r: nat)
    ensures r <= n
  {
    if i < 0 then (if n + i < 0 then 0 else n + i)
    else if i > n then n
    else i
  }

  /** `re.sub(p, rep, s)` where the pattern `p` is a literal string, with
      `flags=re.IGNORECASE` when `ignoreCase` holds: the leftmost occurrence is
      replaced, and the search resumes after it, so occurrences never overlap. */
  function ReplaceAll(s: string, p: string, rep: string, ignoreCase: bool): (r: string)
    requires p != []
    ensures |p| == |rep| ==> |r| == |s|
    decreases |s|
  {
    match FindFrom(s, p, 0, ignoreCase)
    case None => s
    case Some(j) => s[..j] + rep + ReplaceAll(s[j + |p|..], p, rep, ignoreCase)
  }

  /** With its index 0 placed at index `d` of `b`, `a` agrees with `b`
      wherever the two overlap. */
  predicate Agree(a: string, b: string, d: int, ignoreCase: bool)
  {
    forall i, m :: 0 <= i < |b| && 0 <= m < |a| && i == m + d ==> Same(b[i], a[m], ignoreCase)
  }

  /** No placement of `a` that overlaps `b` agrees with it. */
  predicate Disjoint(a: string, b: string, ignoreCase: bool)
  {
    forall d :: -|a| < d < |b| ==> !Agree(a, b, d, ignoreCase)
  }

  /** Two occurrences of `p` can never overlap. */
  predicate SelfOverlapFree(p: string, ignoreCase: bool)
  {
    forall d :: 0 < d < |p| ==> !Agree(p, p, d, ignoreCase)
  }

  /** Writing `rep` where `p` was found cannot produce an occurrence of `q`:
      whenever a placement of `q` agrees with `rep`, `rep` equals `p` on the
      whole overlap. */
  predicate CannotCreate(q: string, p: string, rep: string, ignoreCase: bool)
  {
    |p| == |rep| &&
    forall d :: -|q| < d < |rep| && Agree(q, rep, d, ignoreCase) ==>
      forall i :: 0 <= i < |rep| && 0 <= i - d < |q| ==> Same(p[i], rep[i], ignoreCase)
  }

  /** Python's `s.split(sep)`: the pieces between the leftmost non-overlapping
      occurrences of `sep`. */
  function Split(s: string, sep: string): (parts: seq<string>)
    requires sep != []
    ensures parts != []
    decreases |s|
  {
    match FindFrom(s, sep, 0, false)
    case None => [s]
    case Some(j) => [s[..j]] + Split(s[j + |sep|..], sep)
  }

  /** `parts` glued together with `sep` between consecutive ones (Python's `sep.join(parts)`). */
  function Join(parts: seq<string>, sep: string): string
    requires parts != []
  {
    if |parts| == 1 then parts[0] else parts[0] + sep + Join(parts[1..], sep)
  }

  // ---------------------------------------------------------------------------
  // Facts about re.sub with a literal pattern
  // ---------------------------------------------------------------------------

  /** `a` ends with `b`, which starts at index `off` of `a`. */
  predicate Shifted(a: string, b: string, off: int)
  {
    0 <= off && |a| == off + |b| &&
    forall i, m :: 0 <= i < |b| && 0 <= m < |a| && m == off + i ==> a[m] == b[i]
  }

  lemma ShiftedConcat(a: string, b: string)
    ensures Shifted(a + b, b, |a|)
  {
  }

  /** The occurrences in the tail `b` of `a` are those of `a` that start in
      `b`: index `y` of `b` is index `k` of `a`. */
  lemma MatchShift(a: string, b: string, off: int, p: string, y: int, k: int, ic: bool)
    requires Shifted(a, b, off) && 0 <= y && k == off + y
    ensures MatchAt(b, p, y, ic) <==> MatchAt(a, p, k, ic)
  {
    if MatchAt(b, p, y, ic) {
      forall i | 0 <= i < |p| ensures Same(a[k + i], p[i], ic) {
        assert a[k + i] == b[y + i];
      }
    }
    if MatchAt(a, p, k, ic) {
      forall i | 0 <= i < |p| ensures Same(b[y + i], p[i], ic) {
        assert a[k + i] == b[y + i];
      }
    }
  }

  /** Likewise for a written block. */
  lemma BlockShift(a: string, b: string, off: int, rep: string, y: int, k: int)
    requires Shifted(a, b, off) && 0 <= y && k == off + y
    ensures BlockAt(b, rep, y) ==> BlockAt(a, rep, k)
  {
    if BlockAt(b, rep, y) {
      forall i | 0 <= i < |rep| ensures a[k + i] == rep[i] {
        assert a[k + i] == b[y + i];
      }
    }
  }

  /** Two texts with the same first `n` characters have the same occurrences
      that end within those `n` characters. */
  lemma MatchPrefix(s: string, t: string, n: int, p: string, k: int, ic: bool)
    requires 0 <= n <= |s| && n <= |t| && k + |p| <= n
    requires s[..n] == t[..n]
    ensures MatchAt(s, p, k, ic) ==> MatchAt(t, p, k, ic)
  {
    if MatchAt(s, p, k, ic) {
      forall i | 0 <= i < |p| ensures Same(t[k + i], p[i], ic) {
        assert s[..n][k + i] == t[..n][k + i];
      }
    }
  }

  /** `rep` written at `j` and an occurrence of `q` at `k` agree on their overlap. */
  lemma BlockAgree(r: string, rep: string, j: int, q: string, k: int, ic: bool)
    requires BlockAt(r, rep, j)
    ensures MatchAt(r, q, k, ic) ==> Agree(q, rep, k - j, ic)
  {
    if MatchAt(r, q, k, ic) {
      var d := k - j;
      forall t, u | 0 <= t < |rep| && 0 <= u < |q| && t == u + d ensures Same(rep[t], q[u], ic) {
        assert r[j + t] == rep[t];
        assert Same(r[k + u], q[u], ic);
      }
    }
  }

  /** Two occurrences of `p`, at `j` and at `k`, agree on their overlap. */
  lemma OverlapAgree(s: string, p: string, j: int, k: int, ic: bool)
    ensures MatchAt(s, p, j, ic) && MatchAt(s, p, k, ic) ==> Agree(p, p, k - j, ic)
  {
    if MatchAt(s, p, j, ic) && MatchAt(s, p, k, ic) {
      var d := k - j;
      forall t, u | 0 <= t < |p| && 0 <= u < |p| && t == u + d ensures Same(p[t], p[u], ic) {
        assert Same(s[j + t], p[t], ic);
        assert Same(s[k + u], p[u], ic);
      }
    }
  }

  /** One step of `re.sub` with `p` found at `j`: the result `r` keeps what
      precedes `j`, holds `rep` at `j`, and goes on with `r2`, the rewrite of
      `rest`, which is the text after the occurrence. */
  ghost predicate Step(s: string, r: string, rest: string, r2: string, p: string, rep: string, ic: bool, j: int)
  {
    && MatchAt(s, p, j, ic)
    && |r| == |s|
    && r[..j] == s[..j]
    && BlockAt(r, rep, j)
    && Shifted(s, rest, j + |p|)
    && Shifted(r, r2, j + |p|)
  }

  lemma ReplaceStep(s: string, p: string, rep: string, ic: bool, j: nat)
    requires p != [] && |p| == |rep| && FindFrom(s, p, 0, ic) == Some(j)
    ensures Step(s, ReplaceAll(s, p, rep, ic), s[j + |p|..], ReplaceAll(s[j + |p|..], p, rep, ic), p, rep, ic, j)
  {
    var r := ReplaceAll(s, p, rep, ic);
    var r2 := ReplaceAll(s[j + |p|..], p, rep, ic);
    assert r == (s[..j] + rep) + r2;
    ConcatParts(s[..j], rep, r2);
    ShiftedDrop(s, j + |p|);
  }

  /** The parts of `x + rep + y`. */
  lemma ConcatParts(x: string, rep: string, y: string)
    ensures (x + rep + y)[..|x|] == x
    ensures BlockAt(x + rep + y, rep, |x|)
    ensures Shifted(x + rep + y, y, |x| + |rep|)
  {
    var r := x + rep + y;
    assert r[..|x|] == x;
    forall i, m | 0 <= i < |rep| && 0 <= m < |r| && m == |x| + i ensures r[m] == rep[i] {
    }
    ShiftedConcat(x + rep, y);
  }

  lemma ShiftedDrop(s: string, off: int)
    requires 0 <= off <= |s|
    ensures Shifted(s, s[off..], off)
  {
  }

  /** `r` differs from `s` only inside blocks where `rep` was written over an
      occurrence of `p`. */
  ghost predicate ChangesInBlocks(s: string, r: string, p: string, rep: string, ic: bool)
  {
    |r| == |s| &&
    forall x :: Differs(s, r, x) ==>
      exists j :: j <= x < j + |p| && MatchAt(s, p, j, ic) && BlockAt(r, rep, j)
  }

  /** Index `x` of `s` holds a different character in `r`. */
  predicate Differs(s: string, r: string, x: int)
  {
    0 <= x < |s| && x < |r| && r[x] != s[x]
  }

  lemma ChangesCombine(s: string, r: string, rest: string, r2: string, p: string, rep: string, ic: bool, j: int)
    requires |p| == |rep| && Step(s, r, rest, r2, p, rep, ic, j)
    requires ChangesInBlocks(rest, r2, p, rep, ic)
    ensures ChangesInBlocks(s, r, p, rep, ic)
  {
    var off := j + |p|;
    forall x | off <= x && Differs(s, r, x)
      ensures exists j' :: j' <= x < j' + |p| && MatchAt(s, p, j', ic) && BlockAt(r, rep, j')
    {
      var y := x - off;
      assert r[off + y] == r2[y] && s[off + y] == rest[y];
      assert Differs(rest, r2, y);
      var j2 :| j2 <= y < j2 + |p| && MatchAt(rest, p, j2, ic) && BlockAt(r2, rep, j2);
      MatchShift(s, rest, off, p, j2, off + j2, ic);
      BlockShift(r, r2, off, rep, j2, off + j2);
    }
  }

  /** A same-length replacement changes a character only inside a block that
      replaced an occurrence of `p`. */
  lemma {:induction false} ReplacePointwise(s: string, p: string, rep: string, ic: bool)
    requires p != [] && |p| == |rep|
    ensures ChangesInBlocks(s, ReplaceAll(s, p, rep, ic), p, rep, ic)
    decreases |s|
  {
    match FindFrom(s, p, 0, ic)
    case None =>
    case Some(j) =>
      var rest := s[j + |p|..];
      ReplaceStep(s, p, rep, ic, j);
      ReplacePointwise(rest, p, rep, ic);
      ChangesCombine(s, ReplaceAll(s, p, rep, ic), rest, ReplaceAll(rest, p, rep, ic), p, rep, ic, j);
  }

  /** Replacing `p` by `rep` does not create an occurrence of `q` when
      `CannotCreate(q, p, rep)` holds: every occurrence after the pass was
      already there before it. */
  lemma ReplaceNoNewMatch(s: string, p: string, rep: string, q: string, ic: bool, k: int)
    requires p != [] && CannotCreate(q, p, rep, ic)
    ensures MatchAt(ReplaceAll(s, p, rep, ic), q, k, ic) ==> MatchAt(s, q, k, ic)
  {
    var r := ReplaceAll(s, p, rep, ic);
    if MatchAt(r, q, k, ic) {
      ReplacePointwise(s, p, rep, ic);
      forall i | 0 <= i < |q| ensures Same(s[k + i], q[i], ic) {
        var x := k + i;
        if Differs(s, r, x) {
          var j :| j <= x < j + |p| && MatchAt(s, p, j, ic) && BlockAt(r, rep, j);
          BlockAgree(r, rep, j, q, k, ic);
          assert r[x] == rep[x - j];
          assert Same(s[x], p[x - j], ic);
          assert Same(p[x - j], rep[x - j], ic);
        }
      }
    }
  }

  /** After `re.sub`, no occurrence of the pattern remains, provided no
      placement of the pattern agrees with its replacement. */
  lemma {:induction false} ReplaceRemoves(s: string, p: string, rep: string, ic: bool)
    requires p != [] && |p| == |rep| && Disjoint(p, rep, ic)
    ensures !Occurs(ReplaceAll(s, p, rep, ic), p, ic)
    decreases |s|
  {
    match FindFrom(s, p, 0, ic)
    case None =>
      NotFoundAbsent(s, p, ic);
    case Some(j) =>
      var rest := s[j + |p|..];
      ReplaceStep(s, p, rep, ic, j);
      ReplaceRemoves(rest, p, rep, ic);
      NoneBefore(s, p, ic, j);
      RemovesCombine(s, ReplaceAll(s, p, rep, ic), rest, ReplaceAll(rest, p, rep, ic), p, rep, ic, j);
  }

  lemma RemovesCombine(s: string, r: string, rest: string, r2: string, p: string, rep: string, ic: bool, j: int)
    requires p != [] && |p| == |rep| && Disjoint(p, rep, ic) && Step(s, r, rest, r2, p, rep, ic, j)
    requires forall k :: k < j ==> !MatchAt(s, p, k, ic)
    requires !Occurs(r2, p, ic)
    ensures !Occurs(r, p, ic)
  {
    var off := j + |p|;
    forall k | k + |p| <= j ensures !MatchAt(r, p, k, ic) {
      MatchPrefix(r, s, j, p, k, ic);
    }
    forall k | j < k + |p| && k < off ensures !MatchAt(r, p, k, ic) {
      BlockAgree(r, rep, j, p, k, ic);
    }
    forall k | off <= k ensures !MatchAt(r, p, k, ic) {
      MatchShift(r, r2, off, p, k - off, k, ic);
    }
  }

  /** No occurrence precedes the one the search finds. */
  lemma NoneBefore(s: string, p: string, ic: bool, j: nat)
    requires FindFrom(s, p, 0, ic) == Some(j)
    ensures forall k :: k < j ==> !MatchAt(s, p, k, ic)
  {
    forall k | k < j ensures !MatchAt(s, p, k, ic) {
      BeforeFirst(s, p, ic, k);
    }
  }

  /** The single-index form of `NoneBefore`: a given index `k` before the
      one the search finds holds no occurrence. */
  lemma BeforeFirst(s: string, p: string, ic: bool, k: int)
    ensures FindFrom(s, p, 0, ic).Some? && k < FindFrom(s, p, 0, ic).value ==> !MatchAt(s, p, k, ic)
  {
    if MatchAt(s, p, k, ic) {
      FindFromFirst(s, p, 0, ic, k);
    }
  }

  /** The search finds nothing only in a text without the pattern. */
  lemma NotFoundAbsent(s: string, p: string, ic: bool)
    requires FindFrom(s, p, 0, ic).None?
    ensures !Occurs(s, p, ic)
  {
    forall k ensures !MatchAt(s, p, k, ic) {
      if MatchAt(s, p, k, ic) {
        FindFromFirst(s, p, 0, ic, k);
      }
    }
  }

  /** `re.sub` leaves a text without the pattern unchanged. */
  lemma ReplaceAbsent(s: string, p: string, rep: string, ic: bool)
    requires p != [] && !Occurs(s, p, ic)
    ensures ReplaceAll(s, p, rep, ic) == s
  {
    match FindFrom(s, p, 0, ic)
    case None =>
    case Some(j) =>
      assert false;
  }

  /** Occurrences of a pattern that cannot overlap itself are apart. */
  lemma NoOverlap(s: string, p: string, j: int, k: int, ic: bool)
    requires SelfOverlapFree(p, ic) && MatchAt(s, p, j, ic) && MatchAt(s, p, k, ic) && j <= k
    ensures k == j || j + |p| <= k
  {
    OverlapAgree(s, p, j, k, ic);
  }

  /** Every occurrence of a pattern that cannot overlap itself is replaced,
      in place when the replacement has the pattern's length. */
  lemma {:induction false} ReplaceTakesEveryMatch(s: string, p: string, rep: string, ic: bool, k: int)
    requires p != [] && |p| == |rep| && SelfOverlapFree(p, ic)
    requires MatchAt(s, p, k, ic)
    ensures BlockAt(ReplaceAll(s, p, rep, ic), rep, k)
    decreases |s|
  {
    FindFromFirst(s, p, 0, ic, k);
    var j := FindFrom(s, p, 0, ic).value;
    ReplaceStep(s, p, rep, ic, j);
    NoOverlap(s, p, j, k, ic);
    if k != j {
      var off := j + |p|;
      var rest := s[off..];
      var r := ReplaceAll(s, p, rep, ic);
      var r2 := ReplaceAll(rest, p, rep, ic);
      assert Step(s, r, rest, r2, p, rep, ic, j);
      assert j + |p| <= k;
      StepMatchAfter(s, r, rest, r2, p, rep, ic, j, k);
      ReplaceTakesEveryMatch(rest, p, rep, ic, k - off);
      assert BlockAt(r2, rep, k - (j + |p|));
      StepBlockAfter(s, r, rest, r2, p, rep, ic, j, k);
      assert BlockAt(r, rep, k);
    }
  }

  /** An occurrence after the first one is an occurrence in the rest of the text. */
  lemma StepMatchAfter(s: string, r: string, rest: string, r2: string, p: string, rep: string, ic: bool, j: int, k: int)
    requires Step(s, r, rest, r2, p, rep, ic, j) && j + |p| <= k && MatchAt(s, p, k, ic)
    ensures MatchAt(rest, p, k - (j + |p|), ic)
  {
    MatchShift(s, rest, j + |p|, p, k - (j + |p|), k, ic);
  }

  /** A block written in the rewrite of the rest is a block of the whole result. */
  lemma StepBlockAfter(s: string, r: string, rest: string, r2: string, p: string, rep: string, ic: bool, j: int, k: int)
    requires Step(s, r, rest, r2, p, rep, ic, j) && j + |p| <= k && BlockAt(r2, rep, k - (j + |p|))
    ensures BlockAt(r, rep, k)
  {
    BlockShift(r, r2, j + |p|, rep, k - (j + |p|), k);
  }

  /** A same-length replacement leaves alone every stretch that no occurrence
      of the pattern overlaps. */
  lemma ReplaceUntouched(s: string, p: string, rep: string, ic: bool, a: int, b: int)
    requires p != [] && |p| == |rep| && 0 <= a <= b <= |s|
    requires forall j :: MatchAt(s, p, j, ic) ==> j + |p| <= a || b <= j
    ensures ReplaceAll(s, p, rep, ic)[a..b] == s[a..b]
  {
    var r := ReplaceAll(s, p, rep, ic);
    ReplacePointwise(s, p, rep, ic);
    forall x | a <= x < b ensures r[x] == s[x] {
      assert !Differs(s, r, x);
    }
  }

  lemma MatchWindow(s: string, t: string, a: int, b: int, p: string, k: int, ic: bool)
    requires 0 <= a <= b <= |s| && b <= |t| && a <= k && k + |p| <= b
    requires s[a..b] == t[a..b]
    ensures MatchAt(s, p, k, ic) ==> MatchAt(t, p, k, ic)
  {
    if MatchAt(s, p, k, ic) {
      forall i | 0 <= i < |p| ensures Same(t[k + i], p[i], ic) {
        assert s[a..b][k + i - a] == t[a..b][k + i - a];
      }
    }
  }

  /** An occurrence of `q` that no match of `p` overlaps survives `re.sub`. */
  lemma ReplaceKeepsMatch(s: string, p: string, rep: string, q: string, ic: bool, k: int)
    requires p != [] && |p| == |rep| && MatchAt(s, q, k, ic)
    requires forall j :: MatchAt(s, p, j, ic) ==> j + |p| <= k || k + |q| <= j
    ensures MatchAt(ReplaceAll(s, p, rep, ic), q, k, ic)
  {
    ReplaceUntouched(s, p, rep, ic, k, k + |q|);
    MatchWindow(s, ReplaceAll(s, p, rep, ic), k, k + |q|, q, k, ic);
  }

  /** A text that starts with the pattern has its leftmost occurrence at 0. */
  lemma FoundLeading(p: string, b: string, ic: bool)
    ensures FindFrom(p + b, p, 0, ic) == Some(0)
  {
    var s := p + b;
    forall i | 0 <= i < |p| ensures Same(s[i], p[i], ic) {
      assert s[i] == p[i];
    }
    assert MatchAt(s, p, 0, ic);
  }

  /** When the pattern starts the text and what follows it is too short to
      hold another occurrence, `re.sub` rewrites just that one. */
  lemma ReplaceLeading(p: string, rep: string, b: string, ic: bool)
    requires p != [] && |b| < |p|
    ensures ReplaceAll(p + b, p, rep, ic) == rep + b
  {
    FoundLeading(p, b, ic);
    assert (p + b)[|p|..] == b;
    assert FindFrom(b, p, 0, ic) == None;
  }

  /** `p` occurs in `a + p + b` where it was put. */
  lemma MatchPlaced(a: string, p: string, b: string, ic: bool)
    ensures MatchAt(a + p + b, p, |a|, ic)
  {
    var s := a + p + b;
    forall i | 0 <= i < |p| ensures Same(s[|a| + i], p[i], ic) {
      assert s[|a| + i] == p[i];
    }
  }

  lemma BlockWindow(s: string, t: string, rep: string, k: int)
    requires BlockAt(s, rep, k) && k + |rep| <= |t|
    requires s[k..k + |rep|] == t[k..k + |rep|]
    ensures BlockAt(t, rep, k)
  {
    forall i, m | 0 <= i < |rep| && 0 <= m < |t| && m == k + i ensures t[m] == rep[i] {
      assert s[k..k + |rep|][i] == t[k..k + |rep|][i];
    }
  }

  /** In `x + p + tail`, with `x` free of `p`, the first occurrence of `p` is
      the one right after `x`. */
  lemma FirstAfterPrefix(x: string, p: string, tail: string, ic: bool)
    requires p != [] && SelfOverlapFree(p, ic) && !Occurs(x, p, ic)
    ensures FindFrom(x + p + tail, p, 0, ic) == Some(|x|)
  {
    var s := x + p + tail;
    assert s == x + (p + tail);
    ShiftedConcat(x, p + tail);
    MatchShift(s, p + tail, |x|, p, 0, |x|, ic);
    assert s[..|x|] == x[..|x|];
    forall k | 0 <= k < |x| ensures !MatchAt(s, p, k, ic) {
      if k + |p| <= |x| {
        MatchPrefix(s, x, |x|, p, k, ic);
      } else {
        OverlapAgree(s, p, k, |x|, ic);
      }
    }
    FindFromFirst(s, p, 0, ic, |x|);
  }

  /** `re.sub` read on a text made of parts free of `p` joined by `p`: every
      separator, and nothing else, becomes `rep`. */
  lemma {:induction false} ReplaceJoin(parts: seq<string>, p: string, rep: string, ic: bool)
    requires parts != [] && p != [] && SelfOverlapFree(p, ic)
    requires forall i :: 0 <= i < |parts| ==> !Occurs(parts[i], p, ic)
    ensures ReplaceAll(Join(parts, p), p, rep, ic) == Join(parts, rep)
    decreases |parts|
  {
    if |parts| > 1 {
      var x := parts[0];
      var tail := Join(parts[1..], p);
      var s := x + p + tail;
      FirstAfterPrefix(x, p, tail, ic);
      assert s[..|x|] == x && s[|x| + |p|..] == tail;
      ReplaceJoin(parts[1..], p, rep, ic);
    }
  }

  /** The text before the first occurrence holds none. */
  lemma BeforeFirstAbsent(s: string, p: string, j: nat)
    requires p != [] && FindFrom(s, p, 0, false) == Some(j)
    ensures !Occurs(s[..j], p, false)
  {
    forall k | k + |p| <= j ensures !MatchAt(s[..j], p, k, false) {
      assert s[..j][..j] == s[..j];
      MatchPrefix(s[..j], s, j, p, k, false);
      BeforeFirst(s, p, false, k);
    }
  }

  lemma AroundMatch(s: string, p: string, j: nat)
    requires MatchAt(s, p, j, false)
    ensures s == s[..j] + p + s[j + |p|..]
  {
    assert s[j..j + |p|] == p;
  }

  /** Splitting and joining again gives the text back, and no part holds the separator. */
  lemma {:induction false} SplitJoin(s: string, sep: string)
    requires sep != []
    ensures Join(Split(s, sep), sep) == s
    ensures forall i :: 0 <= i < |Split(s, sep)| ==> !Occurs(Split(s, sep)[i], sep, false)
    decreases |s|
  {
    var parts := Split(s, sep);
    match FindFrom(s, sep, 0, false)
    case None =>
      NotFoundAbsent(s, sep, false);
    case Some(j) =>
      var rest := s[j + |sep|..];
      SplitJoin(rest, sep);
      assert parts == [s[..j]] + Split(rest, sep);
      AroundMatch(s, sep, j);
      BeforeFirstAbsent(s, sep, j);
  }

  /** A text built from two pieces free of `q` is free of `q` when one of the
      two characters at the seam matches no character of `q`. */
  lemma ConcatAbsent(a: string, b: string, q: string, ic: bool)
    requires !Occurs(a, q, ic) && !Occurs(b, q, ic)
    requires (a != [] && forall i :: 0 <= i < |q| ==> !Same(a[|a| - 1], q[i], ic))
          || (b != [] && forall i :: 0 <= i < |q| ==> !Same(b[0], q[i], ic))
    ensures !Occurs(a + b, q, ic)
  {
    var s := a + b;
    ShiftedConcat(a, b);
    forall k | k + |q| <= |a| ensures !MatchAt(s, q, k, ic) {
      MatchPrefix(s, a, |a|, q, k, ic);
    }
    forall k | |a| <= k ensures !MatchAt(s, q, k, ic) {
      MatchShift(s, b, |a|, q, k - |a|, k, ic);
    }
    forall k | k < |a| < k + |q| ensures !MatchAt(s, q, k, ic) {
      SeamMismatch(a, b, q, k, ic);
    }
  }

  lemma SeamMismatch(a: string, b: string, q: string, k: int, ic: bool)
    requires k < |a| < k + |q|
    requires (a != [] && forall i :: 0 <= i < |q| ==> !Same(a[|a| - 1], q[i], ic))
          || (b != [] && forall i :: 0 <= i < |q| ==> !Same(b[0], q[i], ic))
    ensures !MatchAt(a + b, q, k, ic)
  {
    var s := a + b;
    if 0 <= k && k + |q| <= |s| {
      if a != [] && forall i :: 0 <= i < |q| ==> !Same(a[|a| - 1], q[i], ic) {
        var i1 := |a| - 1 - k;
        assert s[k + i1] == a[|a| - 1];
        assert !Same(s[k + i1], q[i1], ic);
      } else {
        var i2 := |a| - k;
        assert s[k + i2] == b[0];
        assert !Same(s[k + i2], q[i2], ic);
      }
    }
  }

  /** An occurrence of `p` holds an occurrence of each prefix of `p`. */
  lemma MatchTake(s: string, p: string, n: int, k: int, ic: bool)
    requires 0 <= n <= |p|
    ensures MatchAt(s, p, k, ic) ==> MatchAt(s, p[..n], k, ic)
  {
    if MatchAt(s, p, k, ic) {
      forall i | 0 <= i < n ensures Same(s[k + i], p[..n][i], ic) {
        assert p[..n][i] == p[i];
      }
    }
  }

  /** An occurrence in the second piece is an occurrence in the whole text. */
  lemma MatchAfter(a: string, b: string, p: string, k: int)
    requires MatchAt(b, p, k, false)
    ensures MatchAt(a + b, p, |a| + k, false) && Contains(a + b, p)
  {
    ShiftedConcat(a, b);
    MatchShift(a + b, b, |a|, p, k, |a| + k, false);
  }

  /** A prefix of a text free of `q` is free of `q`. */
  lemma PrefixAbsent(s: string, n: nat, q: string, ic: bool)
    requires n <= |s| && !Occurs(s, q, ic)
    ensures !Occurs(s[..n], q, ic)
  {
    forall k ensures !MatchAt(s[..n], q, k, ic) {
      if k + |q| <= n {
        MatchPrefix(s[..n], s, n, q, k, ic);
      }
    }
  }

  /** An occurrence of `p` at `k` agrees with the text under that placement. */
  lemma MatchAgree(s: string, p: string, k: int, ic: bool)
    ensures MatchAt(s, p, k, ic) ==> Agree(p, s, k, ic)
  {
    if MatchAt(s, p, k, ic) {
      forall i, m | 0 <= i < |s| && 0 <= m < |p| && i == m + k ensures Same(s[i], p[m], ic) {
        assert Same(s[k + m], p[m], ic);
      }
    }
  }

  /** Appending a character that `q` does not contain keeps a text free of `q`. */
  lemma AppendAbsent(x: string, c: char, q: string, ic: bool)
    requires |q| > 1 && !Occurs(x, q, ic)
    requires forall i :: 0 <= i < |q| ==> !Same(c, q[i], ic)
    ensures !Occurs(x + [c], q, ic)
  {
    forall k ensures !MatchAt([c], q, k, ic) {
    }
    ConcatAbsent(x, [c], q, ic);
  }

  /** Appending a text free of `q` after such a character keeps a text free of `q`. */
  lemma AppendAfter(x: string, c: char, y: string, q: string, ic: bool)
    requires !Occurs(x + [c], q, ic) && !Occurs(y, q, ic)
    requires forall i :: 0 <= i < |q| ==> !Same(c, q[i], ic)
    ensures !Occurs(x + [c] + y, q, ic)
  {
    assert (x + [c])[|x + [c]| - 1] == c;
    ConcatAbsent(x + [c], y, q, ic);
  }

  /** An occurrence in a prefix is an occurrence in the whole text. */
  lemma ContainsExtend(a: string, b: string, p: string)
    requires Contains(a, p)
    ensures Contains(a + b, p)
  {
    var k :| MatchAt(a, p, k, false);
    MatchPrefix(a, a + b, |a|, p, k, false);
  }

  /** `rstrip(c)` keeps every occurrence of a pattern that does not end with `c`. */
  lemma RStripKeeps(s: string, c: char, p: string)
    requires p != [] && p[|p| - 1] != c && Contains(s, p)
    ensures Contains(RStrip(s, c), p)
  {
    var r := RStrip(s, c);
    var k :| MatchAt(s, p, k, false);
    assert s[k + |p| - 1] == p[|p| - 1];
    MatchPrefix(s, r, |r|, p, k, false);
  }

  /** A character in neither the text nor the replacement is not in the result. */
  lemma {:induction false} ReplaceKeepsOut(s: string, p: string, rep: string, ic: bool, ch: char)
    requires p != []
    ensures ch !in s && ch !in rep ==> ch !in ReplaceAll(s, p, rep, ic)
    decreases |s|
  {
    match FindFrom(s, p, 0, ic)
    case None =>
    case Some(j) =>
      ReplaceKeepsOut(s[j + |p|..], p, rep, ic, ch);
      if ch !in s {
        assert ch !in s[..j];
        assert ch !in s[j + |p|..];
      }
  }
}
