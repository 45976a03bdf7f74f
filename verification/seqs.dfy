/** Splitting, joining and filter-mapping of sequences, the way Rust's
    `split`, `join`-style loops and `filter_map(..).collect()` do it. */
module Seqs {
  import opened Wrappers

  /** Concatenates `parts` with one `sep` between consecutive parts. */
  function Join<T>(parts: seq<seq<T>>, sep: T): seq<T>
    decreases |parts|
  {
    if |parts| == 0 then []
    else if |parts| == 1 then parts[0]
    else parts[0] + [sep] + Join(parts[1..], sep)
  }

  /** The pieces of `s` between occurrences of `sep`, as Rust's `split` yields
      them: one more piece than there are separators, empty pieces included. */
  function Split<T(==)>(s: seq<T>, sep: T): (parts: seq<seq<T>>)
    ensures |parts| > 0
    ensures forall i :: 0 <= i < |parts| ==> sep !in parts[i]
    ensures Join(parts, sep) == s
    decreases |s|
  {
    if |s| == 0 then [[]]
    else
      var rest := Split(s[1..], sep);
      if s[0] == sep then
        assert Join([[]] + rest, sep) == [sep] + Join(rest, sep) by {
          assert ([[]] + rest)[1..] == rest;
        }
        [[]] + rest
      else
        var parts := [[s[0]] + rest[0]] + rest[1..];
        assert Join(parts, sep) == [s[0]] + Join(rest, sep) by {
          assert parts[1..] == rest[1..];
        }
        parts
  }

  /** Every element of `lines` followed by `sep`, as a loop of `writeln!` does. */
  function Terminated<T>(lines: seq<seq<T>>, sep: T): seq<T>
    decreases |lines|
  {
    if |lines| == 0 then [] else lines[0] + [sep] + Terminated(lines[1..], sep)
  }

  /** All parts one after another, with nothing between them. */
  function Flatten<T>(parts: seq<seq<T>>): seq<T>
    decreases |parts|
  {
    if |parts| == 0 then [] else parts[0] + Flatten(parts[1..])
  }

  /** Flattening one-element parts lines up their elements one for one. */
  lemma {:induction false} FlattenSingletons<T>(parts: seq<seq<T>>)
    requires forall i :: 0 <= i < |parts| ==> |parts[i]| == 1
    ensures |Flatten(parts)| == |parts|
    ensures forall i :: 0 <= i < |parts| ==> Flatten(parts)[i] == parts[i][0]
    decreases |parts|
  {
    if |parts| > 0 {
      FlattenSingletons(parts[1..]);
    }
  }

  /** `f` applied to every element, in order. */
  function MapSeq<A, B>(xs: seq<A>, f: A -> B): (ys: seq<B>)
    ensures |ys| == |xs|
    ensures forall i :: 0 <= i < |xs| ==> ys[i] == f(xs[i])
  {
    seq(|xs|, i requires 0 <= i < |xs| => f(xs[i]))
  }

  /** Rust's `filter_map(f).collect()`: the `Some` results of `f`, in order. */
  function FilterMap<A, B>(xs: seq<A>, f: A -> Option<B>): (ys: seq<B>)
    ensures |ys| <= |xs|
    decreases |xs|
  {
    if |xs| == 0 then []
    else match f(xs[0])
      case Some(y) => [y] + FilterMap(xs[1..], f)
      case None => FilterMap(xs[1..], f)
  }

  /** Splitting after a separator-free piece and a separator yields that piece first. */
  lemma {:induction false} SplitPiece<T>(p: seq<T>, sep: T, x: seq<T>)
    requires sep !in p
    ensures Split(p + [sep] + x, sep) == [p] + Split(x, sep)
    decreases |p|
  {
    if |p| == 0 {
      assert p + [sep] + x == [sep] + x;
      assert ([sep] + x)[1..] == x;
    } else {
      var s := p + [sep] + x;
      SplitPiece(p[1..], sep, x);
      assert s[1..] == p[1..] + [sep] + x;
      var rest := Split(s[1..], sep);
      assert rest[0] == p[1..] && rest[1..] == Split(x, sep);
      assert s[0] == p[0] && s[0] != sep;
      assert [p[0]] + p[1..] == p;
    }
  }

  /** A separator-free sequence splits into itself alone. */
  lemma {:induction false} SplitWhole<T>(p: seq<T>, sep: T)
    requires sep !in p
    ensures Split(p, sep) == [p]
    decreases |p|
  {
    if |p| > 0 {
      SplitWhole(p[1..], sep);
      assert [p[0]] + p[1..] == p;
    }
  }

  /** Splitting undoes joining, when no part contains the separator. */
  lemma {:induction false} SplitJoin<T>(parts: seq<seq<T>>, sep: T)
    requires |parts| > 0
    requires forall i :: 0 <= i < |parts| ==> sep !in parts[i]
    ensures Split(Join(parts, sep), sep) == parts
    decreases |parts|
  {
    if |parts| == 1 {
      SplitWhole(parts[0], sep);
    } else {
      SplitJoin(parts[1..], sep);
      SplitPiece(parts[0], sep, Join(parts[1..], sep));
      assert [parts[0]] + parts[1..] == parts;
    }
  }

  /** Joining one more part appends a separator and that part. */
  /** A join begins with its first part. */
  lemma JoinHead<T>(parts: seq<seq<T>>, sep: T)
    requires |parts| > 0
    ensures |Join(parts, sep)| >= |parts[0]|
    ensures Join(parts, sep)[..|parts[0]|] == parts[0]
  {
    if |parts| > 1 {
      assert Join(parts, sep) == parts[0] + ([sep] + Join(parts[1..], sep));
    }
  }

  lemma {:induction false} JoinSnoc<T>(parts: seq<seq<T>>, p: seq<T>, sep: T)
    requires |parts| > 0
    ensures Join(parts + [p], sep) == Join(parts, sep) + [sep] + p
    decreases |parts|
  {
    if |parts| == 1 {
      assert (parts + [p])[1..] == [p];
    } else {
      JoinSnoc(parts[1..], p, sep);
      assert (parts + [p])[1..] == parts[1..] + [p];
    }
  }

  /** A join of three parts, written out. */
  lemma JoinThree<T>(a: seq<T>, b: seq<T>, c: seq<T>, sep: T)
    ensures Join([a, b, c], sep) == a + [sep] + b + [sep] + c
  {
    assert [a, b, c][1..] == [b, c];
    assert [b, c][1..] == [c];
    assert Join([b, c], sep) == b + [sep] + c;
    assert a + [sep] + (b + [sep] + c) == a + [sep] + b + [sep] + c;
  }

  /** A join of four parts, written out. */
  lemma JoinFour<T>(a: seq<T>, b: seq<T>, c: seq<T>, d: seq<T>, sep: T)
    ensures Join([a, b, c, d], sep) == a + [sep] + b + [sep] + c + [sep] + d
  {
    assert [a, b, c, d][1..] == [b, c, d];
    JoinThree(b, c, d, sep);
    assert a + [sep] + (b + [sep] + c + [sep] + d) == a + [sep] + b + [sep] + c + [sep] + d;
  }

  /** Joining two non-empty lists of parts puts one separator between their joins. */
  lemma {:induction false} JoinConcat<T>(xs: seq<seq<T>>, ys: seq<seq<T>>, sep: T)
    requires |xs| > 0 && |ys| > 0
    ensures Join(xs + ys, sep) == Join(xs, sep) + [sep] + Join(ys, sep)
    decreases |xs|
  {
    if |xs| == 1 {
      assert (xs + ys)[1..] == ys;
    } else {
      JoinConcat(xs[1..], ys, sep);
      assert (xs + ys)[1..] == xs[1..] + ys;
    }
  }

  /** A join of six parts, written out. */
  lemma JoinSix<T>(a: seq<T>, b: seq<T>, c: seq<T>, d: seq<T>, e: seq<T>, f: seq<T>, sep: T)
    ensures Join([a, b, c, d, e, f], sep)
            == a + [sep] + b + [sep] + c + [sep] + d + [sep] + e + [sep] + f
  {
    assert [a, b, c, d, e, f] == [a, b, c] + [d, e, f];
    JoinConcat([a, b, c], [d, e, f], sep);
    JoinThree(a, b, c, sep);
    JoinThree(d, e, f, sep);
    assert a + [sep] + b + [sep] + c + [sep] + (d + [sep] + e + [sep] + f)
           == a + [sep] + b + [sep] + c + [sep] + d + [sep] + e + [sep] + f;
  }

  /** Terminating one more line appends that line and a separator. */
  lemma {:induction false} TerminatedSnoc<T>(lines: seq<seq<T>>, l: seq<T>, sep: T)
    ensures Terminated(lines + [l], sep) == Terminated(lines, sep) + l + [sep]
    decreases |lines|
  {
    if |lines| == 0 {
      assert lines + [l] == [l];
    } else {
      TerminatedSnoc(lines[1..], l, sep);
      assert (lines + [l])[1..] == lines[1..] + [l];
    }
  }

  /** `TerminatedSnoc` after a prefix already written, associated the way a
      writer appends. */
  lemma TerminatedSnocAfter<T>(prefix: seq<T>, lines: seq<seq<T>>, l: seq<T>, sep: T)
    ensures prefix + Terminated(lines + [l], sep) == prefix + Terminated(lines, sep) + l + [sep]
  {
    TerminatedSnoc(lines, l, sep);
    assert prefix + (Terminated(lines, sep) + l + [sep]) == prefix + Terminated(lines, sep) + l + [sep];
  }

  /** Terminating a concatenation terminates each half. */
  lemma {:induction false} TerminatedAppend<T>(xs: seq<seq<T>>, ys: seq<seq<T>>, sep: T)
    ensures Terminated(xs + ys, sep) == Terminated(xs, sep) + Terminated(ys, sep)
    decreases |xs|
  {
    if |xs| == 0 {
      assert xs + ys == ys;
    } else {
      TerminatedAppend(xs[1..], ys, sep);
      assert (xs + ys)[1..] == xs[1..] + ys;
    }
  }

  /** `TerminatedAppend` after a prefix already written. */
  lemma TerminatedAppendAfter<T>(prefix: seq<T>, xs: seq<seq<T>>, ys: seq<seq<T>>, sep: T)
    ensures prefix + Terminated(xs + ys, sep) == prefix + Terminated(xs, sep) + Terminated(ys, sep)
  {
    TerminatedAppend(xs, ys, sep);
    assert prefix + (Terminated(xs, sep) + Terminated(ys, sep)) == prefix + Terminated(xs, sep) + Terminated(ys, sep);
  }

  /** A first line and three runs of lines, terminated after a prefix. */
  lemma TerminatedRuns<T>(prefix: seq<T>, first: seq<T>, xs: seq<seq<T>>, ys: seq<seq<T>>, zs: seq<seq<T>>, sep: T)
    ensures prefix + Terminated([first] + xs + ys + zs, sep)
            == prefix + first + [sep] + Terminated(xs, sep) + Terminated(ys, sep) + Terminated(zs, sep)
  {
    var head := [first];
    TerminatedAppendAfter(prefix, head + xs + ys, zs, sep);
    TerminatedAppendAfter(prefix, head + xs, ys, sep);
    TerminatedAppendAfter(prefix, head, xs, sep);
    assert Terminated(head, sep) == first + [sep];
    assert prefix + (first + [sep]) == prefix + first + [sep];
  }

  /** Terminating every line is joining them with one empty line added at the end. */
  lemma {:induction false} TerminatedIsJoin<T>(lines: seq<seq<T>>, sep: T)
    ensures Terminated(lines, sep) == Join(lines + [[]], sep)
    decreases |lines|
  {
    if |lines| > 0 {
      TerminatedIsJoin(lines[1..], sep);
      assert (lines + [[]])[1..] == lines[1..] + [[]];
    }
  }

  /** Filter-mapping a concatenation filter-maps each half. */
  lemma {:induction false} FilterMapAppend<A, B>(xs: seq<A>, ys: seq<A>, f: A -> Option<B>)
    ensures FilterMap(xs + ys, f) == FilterMap(xs, f) + FilterMap(ys, f)
    decreases |xs|
  {
    if |xs| == 0 {
      assert xs + ys == ys;
    } else {
      FilterMapAppend(xs[1..], ys, f);
      assert (xs + ys)[1..] == xs[1..] + ys;
    }
  }

  /** An element `f` rejects contributes nothing to the result. */
  lemma FilterMapDropsRejected<A, B>(xs: seq<A>, x: A, ys: seq<A>, f: A -> Option<B>)
    requires f(x).None?
    ensures FilterMap(xs + [x] + ys, f) == FilterMap(xs + ys, f)
  {
    FilterMapAppend(xs + [x], ys, f);
    FilterMapAppend(xs, [x], f);
    FilterMapAppend(xs, ys, f);
  }

  /** When `f` accepts every element, nothing is dropped and the order is kept. */
  lemma {:induction false} FilterMapAllSome<A, B>(xs: seq<A>, f: A -> Option<B>)
    requires forall i :: 0 <= i < |xs| ==> f(xs[i]).Some?
    ensures |FilterMap(xs, f)| == |xs|
    ensures forall i :: 0 <= i < |xs| ==> FilterMap(xs, f)[i] == f(xs[i]).value
    decreases |xs|
  {
    if |xs| > 0 {
      assert f(xs[0]).Some?;
      FilterMapAllSome(xs[1..], f);
    }
  }

  /** Every element of the result is the value `f` gives some input element. */
  lemma {:induction false} FilterMapSound<A, B>(xs: seq<A>, f: A -> Option<B>, j: nat)
    requires j < |FilterMap(xs, f)|
    ensures exists i :: 0 <= i < |xs| && f(xs[i]) == Some(FilterMap(xs, f)[j])
    decreases |xs|
  {
    var rest := FilterMap(xs[1..], f);
    match f(xs[0])
    case Some(y) =>
      if j > 0 {
        FilterMapSound(xs[1..], f, j - 1);
        var i :| 0 <= i < |xs[1..]| && f(xs[1..][i]) == Some(rest[j - 1]);
        assert f(xs[i + 1]) == Some(FilterMap(xs, f)[j]);
      } else {
        assert f(xs[0]) == Some(FilterMap(xs, f)[0]);
      }
    case None =>
      FilterMapSound(xs[1..], f, j);
      var i :| 0 <= i < |xs[1..]| && f(xs[1..][i]) == Some(rest[j]);
      assert f(xs[i + 1]) == Some(FilterMap(xs, f)[j]);
  }

  /** `filter_map(f).collect()` where `f` may also panic: the first element whose
      `f` panics ends the whole run; otherwise the `Ok` results are kept in order. */
  function FilterMapOutcome<A, B>(xs: seq<A>, f: A -> Outcome<B>): (r: Outcome<seq<B>>)
    ensures !r.Rejected?
    ensures r.Ok? <==> forall i :: 0 <= i < |xs| ==> !f(xs[i]).Panic?
    ensures r.Panic? ==> exists i :: 0 <= i < |xs| && f(xs[i]) == Panic(r.reason)
                          && forall j :: 0 <= j < i ==> !f(xs[j]).Panic?
    decreases |xs|
  {
    if |xs| == 0 then Ok([])
    else
      var first := f(xs[0]);
      var rest := FilterMapOutcome(xs[1..], f);
      if first.Panic? then Panic(first.reason)
      else if rest.Panic? then
        assert exists i :: 0 <= i < |xs| && f(xs[i]) == Panic(rest.reason)
                           && forall j :: 0 <= j < i ==> !f(xs[j]).Panic? by {
          var i :| 0 <= i < |xs[1..]| && f(xs[1..][i]) == Panic(rest.reason)
                   && forall j :: 0 <= j < i ==> !f(xs[1..][j]).Panic?;
          assert f(xs[i + 1]) == Panic(rest.reason);
          forall j | 0 <= j < i + 1
            ensures !f(xs[j]).Panic?
          {
            if j > 0 {
              assert xs[j] == xs[1..][j - 1];
            }
          }
        }
        Panic(rest.reason)
      else if first.Ok? then Ok([first.value] + rest.value)
      else rest
  }

  /** Without a panic, the result is the plain filter-map of the `Option` view. */
  lemma {:induction false} FilterMapOutcomeOk<A, B>(xs: seq<A>, f: A -> Outcome<B>, g: A -> Option<B>)
    requires forall x :: g(x) == f(x).ToOption()
    requires FilterMapOutcome(xs, f).Ok?
    ensures FilterMapOutcome(xs, f).value == FilterMap(xs, g)
    decreases |xs|
  {
    if |xs| > 0 {
      FilterMapOutcomeOk(xs[1..], f, g);
    }
  }

  /** An element `f` rejects can be removed without changing the outcome. */
  lemma {:induction false} FilterMapOutcomeDrops<A, B>(xs: seq<A>, x: A, ys: seq<A>, f: A -> Outcome<B>)
    requires f(x).Rejected?
    ensures FilterMapOutcome(xs + [x] + ys, f) == FilterMapOutcome(xs + ys, f)
    decreases |xs|
  {
    if |xs| == 0 {
      assert xs + [x] + ys == [x] + ys;
      assert xs + ys == ys;
      assert ([x] + ys)[1..] == ys;
    } else {
      FilterMapOutcomeDrops(xs[1..], x, ys, f);
      assert (xs + [x] + ys)[1..] == xs[1..] + [x] + ys;
      assert (xs + ys)[1..] == xs[1..] + ys;
    }
  }
}
