/** Leftmost-first matching of the simple patterns the source compiles with the
    `regex` crate: a class for the first element followed by a greedy run. */
module Scan {
  import opened Wrappers

  /** The half-open range `start..end` of a match. */
  datatype Span = Span(start: nat, end: nat)

  /** The first index from `from` whose element satisfies `p`, or `|s|`. */
  function SkipUntil<T>(s: seq<T>, from: nat, p: T -> bool): (r: nat)
    requires from <= |s|
    ensures from <= r <= |s|
    ensures r < |s| ==> p(s[r])
    ensures forall k :: from <= k < r ==> !p(s[k])
    decreases |s| - from
  {
    if from == |s| || p(s[from]) then from else SkipUntil(s, from + 1, p)
  }

  /** The end of the longest run of elements satisfying `p` that starts at `from`. */
  function SkipWhile<T>(s: seq<T>, from: nat, p: T -> bool): (r: nat)
    requires from <= |s|
    ensures from <= r <= |s|
    ensures r < |s| ==> !p(s[r])
    ensures forall k :: from <= k < r ==> p(s[k])
    decreases |s| - from
  {
    if from == |s| || !p(s[from]) then from else SkipWhile(s, from + 1, p)
  }

  /** The least index in `from..bound` at which `at` holds, or `bound`. */
  function FirstFrom(from: nat, bound: nat, at: nat -> bool): (r: nat)
    requires from <= bound
    ensures from <= r <= bound
    ensures r < bound ==> at(r)
    ensures forall k :: from <= k < r ==> !at(k)
    decreases bound - from
  {
    if from == bound || at(from) then from else FirstFrom(from + 1, bound, at)
  }

  /** `sp` is the leftmost-first match in `s` of the pattern `first rest*`:
      no element before it can begin a match and the run cannot be extended. */
  ghost predicate IsLeftmostRun<T>(s: seq<T>, first: T -> bool, rest: T -> bool, sp: Span) {
    && sp.start < sp.end <= |s|
    && first(s[sp.start])
    && (forall k :: sp.start < k < sp.end ==> rest(s[k]))
    && (sp.end < |s| ==> !rest(s[sp.end]))
    && (forall k :: 0 <= k < sp.start ==> !first(s[k]))
  }

  /** The leftmost-first match of `first rest*` in `s`, if any. */
  function LeftmostRun<T>(s: seq<T>, first: T -> bool, rest: T -> bool): (r: Option<Span>)
    ensures r.None? <==> forall k :: 0 <= k < |s| ==> !first(s[k])
    ensures r.Some? ==> IsLeftmostRun(s, first, rest, r.value)
  {
    var i := SkipUntil(s, 0, first);
    if i == |s| then None else Some(Span(i, SkipWhile(s, i + 1, rest)))
  }

  /** The leftmost-first match is unique, so the contract of `LeftmostRun` pins its result. */
  lemma LeftmostRunUnique<T>(s: seq<T>, first: T -> bool, rest: T -> bool, a: Span, b: Span)
    requires IsLeftmostRun(s, first, rest, a)
    requires IsLeftmostRun(s, first, rest, b)
    ensures a == b
  {
  }
}
