/** The component closure both updaters compute before copying glyphs:
    the requested glyphs of the source, plus every glyph reached from them
    through component references, except that a referenced glyph already in
    the target is not followed when components are not to be overwritten.

    The source keeps the accumulator in a field that the recursion
    mutates; here it is threaded through the calls as an in/out
    parameter, which is the same thing for a set that only the recursion
    touches. */
module Closure {
  import opened Fonts

  /** The glyph names `C` is closed under: every component of a source
      glyph in `C` is in `C`, unless it is a target glyph that the policy
      keeps (`overwrite` false). */
  ghost predicate Closed(src: map<string, Glyph>, tgt: set<string>, overwrite: bool, C: set<string>)
  {
    forall n, i :: n in C && n in src && 0 <= i < |src[n].components| ==>
      src[n].components[i] in C || (!overwrite && src[n].components[i] in tgt)
  }

  /** `C` holds the roots and is closed: any such set is a safe update set.
      The closure is the least such set. */
  ghost predicate Covers(src: map<string, Glyph>, tgt: set<string>, overwrite: bool, roots: set<string>, C: set<string>)
  {
    roots <= C && Closed(src, tgt, overwrite, C)
  }

  /** `C` is contained in every set that covers the roots. */
  ghost predicate Least(src: map<string, Glyph>, tgt: set<string>, overwrite: bool, roots: set<string>, C: set<string>)
  {
    forall D :: Covers(src, tgt, overwrite, roots, D) ==> C <= D
  }

  /** `n` is a source glyph whose components have all been dealt with:
      each is in `all`, or is a target glyph the policy keeps. */
  ghost predicate Handled(src: map<string, Glyph>, tgt: set<string>, overwrite: bool, n: string, all: set<string>)
  {
    n in src &&
    forall i :: 0 <= i < |src[n].components| ==>
      src[n].components[i] in all || (!overwrite && src[n].components[i] in tgt)
  }

  /** Every name in `done` has been visited to the end. */
  ghost predicate Explored(src: map<string, Glyph>, tgt: set<string>, overwrite: bool, done: set<string>, all: set<string>)
  {
    forall n :: n in done ==> Handled(src, tgt, overwrite, n, all)
  }

  /** What the font library guarantees: every glyph is stored under its
      own name. */
  ghost predicate WellNamed(src: map<string, Glyph>)
  {
    forall n :: n in src ==> src[n].name == n
  }

  /** The requested names that are source glyphs: only those are visited,
      because the visit iterates over the source. */
  function Roots(src: map<string, Glyph>, requested: seq<string>): (roots: set<string>)
    ensures forall n :: n in roots <==> n in src && n in requested
  {
    set n | n in src && n in requested
  }

  lemma ExploredGrows(src: map<string, Glyph>, tgt: set<string>, overwrite: bool, done: set<string>, all: set<string>, all': set<string>)
    requires Explored(src, tgt, overwrite, done, all) && all <= all'
    ensures Explored(src, tgt, overwrite, done, all')
  {
    forall n | n in done
      ensures Handled(src, tgt, overwrite, n, all')
    {
      assert Handled(src, tgt, overwrite, n, all);
    }
  }

  /** Visits the components of `g`, adding every name not yet collected
      and not kept by the policy, and recursing into its source glyph;
      then adds `g`'s own name. A component missing from the source is a
      lookup failure (`ok` false) that aborts the whole visit, after its
      name was added. The recursion terminates on component cycles because
      a name is added before its glyph is visited: each call has strictly
      fewer uncollected source names than its caller, so the depth is at
      most the number of source glyphs. `done` is proof bookkeeping: the
      names whose visit has finished. */
  method CollectComponents(src: map<string, Glyph>, tgt: set<string>, overwrite: bool,
                           ghost roots: set<string>, g: Glyph,
                           all: set<string>, ghost done: set<string>)
    returns (all': set<string>, ghost done': set<string>, ok: bool)
    requires WellNamed(src) && g.name in src && src[g.name] == g
    requires done <= all && Explored(src, tgt, overwrite, done, all)
    requires forall D :: Covers(src, tgt, overwrite, roots, D) ==> g.name in D && all <= D
    ensures all <= all'
    ensures Least(src, tgt, overwrite, roots, all')
    ensures ok ==> g.name in done' && done <= done' <= all'
    ensures ok ==> Explored(src, tgt, overwrite, done', all')
    ensures ok ==> all' - done' <= all - done
    ensures !ok ==> !(all' <= src.Keys)
    decreases src.Keys - all
  {
    all', done' := all, done;
    var i := 0;
    while i < |g.components|
      invariant 0 <= i <= |g.components|
      invariant all <= all' && done <= done' <= all'
      invariant Explored(src, tgt, overwrite, done', all')
      invariant all' - done' <= all - done
      invariant Least(src, tgt, overwrite, roots, all')
      invariant forall j :: 0 <= j < i ==> g.components[j] in all' || (!overwrite && g.components[j] in tgt)
    {
      var name := g.components[i];
      if name in all' {
        // already collected, or being visited further up: a cycle ends here
      } else if name in tgt && !overwrite {
        // the policy keeps the target's own glyph
      } else {
        ghost var before := all';
        all' := all' + {name};
        if name !in src {
          ok := false;
          return;
        }
        ExploredGrows(src, tgt, overwrite, done', before, all');
        forall D | Covers(src, tgt, overwrite, roots, D)
          ensures name in D && all' <= D
        {
          assert g.name in D && src[g.name].components[i] == name;
        }
        var sub;
        all', done', sub := CollectComponents(src, tgt, overwrite, roots, src[name], all', done');
        if !sub {
          ok := false;
          return;
        }
        ExploredGrows(src, tgt, overwrite, done', all', all');
      }
      i := i + 1;
    }
    ghost var before := all';
    all' := all' + {g.name};
    ExploredGrows(src, tgt, overwrite, done', before, all');
    assert Handled(src, tgt, overwrite, g.name, all');
    done' := done' + {g.name};
    ok := true;
  }

  /** Visits every requested glyph of the source, in the source's order,
      starting from an empty accumulator. On success the result is THE
      closure: it covers the roots and lies within every set that covers
      them, and every name in it is a source glyph. On failure some
      reached component is missing from the source. */
  method CollectGlyphs(src: SourceFont, tgt: set<string>, overwrite: bool, requested: seq<string>)
    returns (all: set<string>, ok: bool)
    requires src.Valid()
    ensures Least(src.glyphs, tgt, overwrite, Roots(src.glyphs, requested), all)
    ensures ok ==> Covers(src.glyphs, tgt, overwrite, Roots(src.glyphs, requested), all)
    ensures ok ==> all <= src.glyphs.Keys
    ensures !ok ==> !(all <= src.glyphs.Keys)
  {
    ghost var roots := Roots(src.glyphs, requested);
    ghost var done: set<string> := {};
    all := {};
    var k := 0;
    while k < |src.order|
      invariant 0 <= k <= |src.order|
      invariant done == all
      invariant Explored(src.glyphs, tgt, overwrite, done, all)
      invariant Least(src.glyphs, tgt, overwrite, roots, all)
      invariant forall j :: 0 <= j < k && src.order[j] in requested ==> src.order[j] in all
    {
      var name := src.order[k];
      if name in requested {
        var glyph := src.glyphs[name];
        all, done, ok := CollectComponents(src.glyphs, tgt, overwrite, roots, glyph, all, done);
        if !ok {
          return;
        }
        forall x | x in all
          ensures x in done
        {
          assert x !in all - done;
        }
      }
      k := k + 1;
    }
    ok := true;
  }

  /** Two closures of the same roots are equal: the result does not depend
      on the order of the visit. */
  lemma {:induction false} ClosureUnique(src: map<string, Glyph>, tgt: set<string>, overwrite: bool, roots: set<string>, A: set<string>, B: set<string>)
    requires Covers(src, tgt, overwrite, roots, A) && Least(src, tgt, overwrite, roots, A)
    requires Covers(src, tgt, overwrite, roots, B) && Least(src, tgt, overwrite, roots, B)
    ensures A == B
  {
    assert A <= B;
    assert B <= A;
  }

  /** When components are not overwritten, a target glyph is in the closure
      only if it was itself requested: no reference leads into a kept
      target glyph. */
  lemma KeptTargetGlyphsOnlyIfRequested(src: map<string, Glyph>, tgt: set<string>, requested: seq<string>, C: set<string>)
    requires Covers(src, tgt, false, Roots(src, requested), C) && Least(src, tgt, false, Roots(src, requested), C)
    ensures forall n :: n in C && n in tgt ==> n in requested
  {
    var D := set n | n in C && (n !in tgt || n in requested);
    assert Covers(src, tgt, false, Roots(src, requested), D);
    assert C <= D;
  }

  /** With overwriting on, the policy plays no part: the closure is closed
      under every component reference of its source glyphs. */
  lemma OverwriteFollowsEveryComponent(src: map<string, Glyph>, tgt: set<string>, roots: set<string>, C: set<string>, n: string, i: int)
    requires Covers(src, tgt, true, roots, C)
    requires n in C && n in src && 0 <= i < |src[n].components|
    ensures src[n].components[i] in C
  {
  }

  /** Asking for more glyphs never shrinks the closure. */
  lemma ClosureMonotonic(src: map<string, Glyph>, tgt: set<string>, overwrite: bool, r1: set<string>, r2: set<string>, C1: set<string>, C2: set<string>)
    requires r1 <= r2
    requires Least(src, tgt, overwrite, r1, C1)
    requires Covers(src, tgt, overwrite, r2, C2)
    ensures C1 <= C2
  {
    assert Covers(src, tgt, overwrite, r1, C2);
  }

  /** Requesting the closure itself again yields the same closure. */
  lemma ClosureIdempotent(src: map<string, Glyph>, tgt: set<string>, overwrite: bool, roots: set<string>, C: set<string>)
    requires Covers(src, tgt, overwrite, roots, C) && C <= src.Keys
    ensures Covers(src, tgt, overwrite, C, C) && Least(src, tgt, overwrite, C, C)
  {
  }

  /** A glyph A whose component is B, and B whose component is A: asking
      for A collects exactly A and B. */
  lemma CycleClosure()
    ensures var src := map["A" := Glyph("A", ["B"]), "B" := Glyph("B", ["A"])];
      Covers(src, {}, false, {"A"}, {"A", "B"}) && Least(src, {}, false, {"A"}, {"A", "B"})
  {
    var src := map["A" := Glyph("A", ["B"]), "B" := Glyph("B", ["A"])];
    forall D | Covers(src, {}, false, {"A"}, D)
      ensures {"A", "B"} <= D
    {
      assert src["A"].components[0] == "B";
    }
  }
}
