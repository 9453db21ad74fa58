/**
  `pattern.finditer(s)`, for any one pattern: the leftmost match at or after
  the current position is reported, and the search resumes where that match
  ended, so matches never overlap. The pattern enters as the function giving
  the match that starts at each index, as `pattern.match(s, i)` reports it.
*/
module Finditer {
  import opened Wrappers
  import opened Regex

  /** `at(i)` is the match that starts at `i` in a string of length `n`, if any. */
  ghost predicate Consistent(at: nat -> Option<Match>, n: nat) {
    forall i: nat :: at(i).Some? ==> at(i).value.start == i < at(i).value.end <= n
  }

  /** The pattern matches at no index in [lo, hi). */
  ghost predicate NoMatchIn(at: nat -> Option<Match>, lo: nat, hi: nat) {
    forall q :: lo <= q < hi ==> at(q).None?
  }

  /** Where the search for the k-th match starts: `pos` for the first, the end of the previous match after that. */
  function Resume(pos: nat, ms: seq<Match>, k: nat): nat
    requires k <= |ms|
  {
    if k == 0 then pos else ms[k - 1].end
  }

  /**
    `ms` is what `finditer` reports from `pos` on in a string of length `n`:
    each element is the match at its start, that start is at or after the end
    of the element before, the pattern matches nowhere in between, and it
    matches nowhere after the last element (the empty position `n` included).
  */
  ghost predicate IsLeftmostScan(at: nat -> Option<Match>, n: nat, pos: nat, ms: seq<Match>) {
    && pos <= n
    && (forall k :: 0 <= k < |ms| ==> at(ms[k].start) == Some(ms[k]))
    && (forall k {:trigger Resume(pos, ms, k)} :: 0 <= k < |ms| ==>
          Resume(pos, ms, k) <= ms[k].start && NoMatchIn(at, Resume(pos, ms, k), ms[k].start))
    && NoMatchIn(at, Resume(pos, ms, |ms|), n + 1)
  }

  /**
    The matches `finditer` reports from `pos` on, in order: the match at the
    first index where one starts, then the search goes on from its end.
  */
  function Scan(at: nat -> Option<Match>, n: nat, pos: nat): (ms: seq<Match>)
    requires pos <= n && Consistent(at, n)
    ensures forall k :: 0 <= k < |ms| ==>
              pos <= ms[k].start < ms[k].end <= n && at(ms[k].start) == Some(ms[k])
    decreases n - pos
  {
    match at(pos)
    case Some(m) => [m] + Scan(at, n, m.end)
    case None => if pos == n then [] else Scan(at, n, pos + 1)
  }

  /** `Scan` is leftmost and non-overlapping, as `finditer` is. */
  lemma {:induction false} ScanIsLeftmost(at: nat -> Option<Match>, n: nat, pos: nat)
    requires pos <= n && Consistent(at, n)
    ensures IsLeftmostScan(at, n, pos, Scan(at, n, pos))
    decreases n - pos
  {
    match at(pos)
    case Some(m) =>
      ScanIsLeftmost(at, n, m.end);
      LeftmostCons(at, n, pos, m, Scan(at, n, m.end));
    case None =>
      if pos < n {
        ScanIsLeftmost(at, n, pos + 1);
        LeftmostSkip(at, n, pos, Scan(at, n, pos + 1));
      } else {
        assert NoMatchIn(at, pos, n + 1);
      }
  }

  /** A match at `pos` followed by a leftmost scan from its end is a leftmost scan from `pos`. */
  lemma LeftmostCons(at: nat -> Option<Match>, n: nat, pos: nat, m: Match, rest: seq<Match>)
    requires Consistent(at, n) && pos <= n && at(pos) == Some(m)
    requires IsLeftmostScan(at, n, m.end, rest)
    ensures IsLeftmostScan(at, n, pos, [m] + rest)
  {
    var ms := [m] + rest;
    forall k | 0 <= k < |ms|
      ensures Resume(pos, ms, k) <= ms[k].start && NoMatchIn(at, Resume(pos, ms, k), ms[k].start)
    {
      if k > 0 {
        assert ms[k] == rest[k - 1] && Resume(pos, ms, k) == Resume(m.end, rest, k - 1);
      }
    }
    assert Resume(pos, ms, |ms|) == Resume(m.end, rest, |rest|);
  }

  /** Where the pattern does not match at `pos`, a leftmost scan from `pos + 1` is one from `pos`. */
  lemma LeftmostSkip(at: nat -> Option<Match>, n: nat, pos: nat, ms: seq<Match>)
    requires pos < n && at(pos).None?
    requires IsLeftmostScan(at, n, pos + 1, ms)
    ensures IsLeftmostScan(at, n, pos, ms)
  {
    forall k | 0 <= k < |ms|
      ensures Resume(pos, ms, k) <= ms[k].start && NoMatchIn(at, Resume(pos, ms, k), ms[k].start)
    {
      assert Resume(pos + 1, ms, k) <= ms[k].start && NoMatchIn(at, Resume(pos + 1, ms, k), ms[k].start);
      if k == 0 {
        NoMatchFrom(at, pos, ms[0].start);
      } else {
        assert Resume(pos, ms, k) == Resume(pos + 1, ms, k);
      }
    }
    if ms == [] {
      assert NoMatchIn(at, Resume(pos + 1, ms, 0), n + 1);
      NoMatchFrom(at, pos, n + 1);
    }
  }

  /** A stretch without matches grows by one index to the left where the pattern does not match. */
  lemma NoMatchFrom(at: nat -> Option<Match>, pos: nat, hi: nat)
    requires at(pos).None? && NoMatchIn(at, pos + 1, hi)
    ensures NoMatchIn(at, pos, hi)
  {
  }

  /** A leftmost scan goes on from the end of its first match. */
  lemma LeftmostScanTail(at: nat -> Option<Match>, n: nat, pos: nat, ms: seq<Match>)
    requires Consistent(at, n) && IsLeftmostScan(at, n, pos, ms) && ms != []
    ensures ms[0].end <= n && IsLeftmostScan(at, n, ms[0].end, ms[1..])
  {
    var rest := ms[1..];
    forall k | 0 <= k <= |rest| ensures Resume(ms[0].end, rest, k) == Resume(pos, ms, k + 1) {
    }
    assert forall k :: 0 <= k < |rest| ==> rest[k] == ms[k + 1];
  }

  /** Where the pattern matches at `pos`, a leftmost scan from `pos` reports that match first. */
  lemma LeftmostHead(at: nat -> Option<Match>, n: nat, pos: nat, ms: seq<Match>)
    requires IsLeftmostScan(at, n, pos, ms) && at(pos).Some?
    ensures ms != [] && ms[0] == at(pos).value
  {
    assert ms != [];
    assert Resume(pos, ms, 0) <= ms[0].start && NoMatchIn(at, Resume(pos, ms, 0), ms[0].start);
  }

  /** Where the pattern does not match at `pos`, a leftmost scan from `pos` is one from `pos + 1`. */
  lemma LeftmostUnskip(at: nat -> Option<Match>, n: nat, pos: nat, ms: seq<Match>)
    requires pos < n && at(pos).None?
    requires IsLeftmostScan(at, n, pos, ms)
    ensures IsLeftmostScan(at, n, pos + 1, ms)
  {
    forall k | 0 <= k < |ms|
      ensures Resume(pos + 1, ms, k) <= ms[k].start
      ensures NoMatchIn(at, Resume(pos + 1, ms, k), ms[k].start)
    {
      assert Resume(pos, ms, k) <= ms[k].start && NoMatchIn(at, Resume(pos, ms, k), ms[k].start);
      if k == 0 {
        assert at(ms[0].start).Some?;
      }
    }
    assert NoMatchIn(at, Resume(pos, ms, |ms|), n + 1);
  }

  /** `finditer` is determined: the only leftmost scan from `pos` is `Scan`. */
  lemma {:induction false} LeftmostScanUnique(at: nat -> Option<Match>, n: nat, pos: nat, ms: seq<Match>)
    requires Consistent(at, n) && IsLeftmostScan(at, n, pos, ms)
    ensures ms == Scan(at, n, pos)
    decreases n - pos
  {
    match at(pos)
    case Some(m) =>
      LeftmostHead(at, n, pos, ms);
      LeftmostScanTail(at, n, pos, ms);
      LeftmostScanUnique(at, n, m.end, ms[1..]);
      assert ms == [m] + ms[1..];
    case None =>
      if pos < n {
        LeftmostUnskip(at, n, pos, ms);
        LeftmostScanUnique(at, n, pos + 1, ms);
      } else {
        LeftmostAtEnd(at, n, ms);
      }
  }

  /** The first reported match starts at or after the resume position. */
  lemma LeftmostFirst(at: nat -> Option<Match>, n: nat, pos: nat, ms: seq<Match>)
    requires IsLeftmostScan(at, n, pos, ms)
    ensures ms == [] || (pos <= ms[0].start && at(ms[0].start) == Some(ms[0]))
  {
    if ms != [] {
      assert Resume(pos, ms, 0) <= ms[0].start;
    }
  }

  /** Nothing is reported from the end of the string on. */
  lemma LeftmostAtEnd(at: nat -> Option<Match>, n: nat, ms: seq<Match>)
    requires Consistent(at, n) && IsLeftmostScan(at, n, n, ms)
    ensures ms == []
  {
    LeftmostFirst(at, n, n, ms);
  }

  /**
    The matches of a leftmost scan do not overlap and come in strictly
    increasing order: every match ends at or before the next one starts.
  */
  lemma LeftmostNonOverlapping(at: nat -> Option<Match>, n: nat, pos: nat, ms: seq<Match>)
    requires Consistent(at, n) && IsLeftmostScan(at, n, pos, ms)
    ensures forall k :: 0 <= k < |ms| ==> pos <= ms[k].start < ms[k].end <= n
    ensures forall i, j :: 0 <= i < j < |ms| ==> ms[i].end <= ms[j].start
  {
    forall k | 0 <= k < |ms| ensures pos <= ms[k].start < ms[k].end <= n {
      LeftmostChain(at, n, pos, ms, 0, k);
    }
    forall i, j | 0 <= i < j < |ms| ensures ms[i].end <= ms[j].start {
      LeftmostChain(at, n, pos, ms, i + 1, j);
    }
  }

  /** Each match of a leftmost scan starts at or after the resume position of every earlier one. */
  lemma {:induction false} LeftmostChain(at: nat -> Option<Match>, n: nat, pos: nat, ms: seq<Match>, i: nat, j: nat)
    requires Consistent(at, n) && IsLeftmostScan(at, n, pos, ms)
    requires i <= j < |ms|
    ensures Resume(pos, ms, i) <= ms[j].start < ms[j].end <= n
    decreases j - i
  {
    assert Resume(pos, ms, j) <= ms[j].start;
    assert at(ms[j].start).Some?;
    if i < j {
      LeftmostChain(at, n, pos, ms, i, j - 1);
      assert Resume(pos, ms, j) == ms[j - 1].end;
    }
  }
}
