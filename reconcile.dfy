/** What the updater does to the target's glyphs, groups and kerning,
    stated as functions of the state before each step. The update methods
    of `Update.Updater` are proved to produce exactly these values; the
    lemmas at the end state what the whole merge guarantees. */
module Reconcile {
  import opened Fonts

  // ---------------------------------------------------------------- glyphs

  /** The default layer after copying: every name in `names` that is a
      source glyph holds that source glyph, the rest of the layer is as
      before. */
  function Overlay(layer: map<string, Glyph>, src: map<string, Glyph>, names: set<string>): (r: map<string, Glyph>)
    ensures forall n :: n in names && n in src ==> n in r && r[n] == src[n]
    ensures forall n :: !(n in names && n in src) ==> (n in r <==> n in layer)
    ensures forall n :: !(n in names && n in src) && n in layer ==> r[n] == layer[n]
  {
    map n | n in layer.Keys + (names * src.Keys) :: if n in names && n in src then src[n] else layer[n]
  }

  /** Visiting one more source glyph `n` of the walk over the source:
      it is written when it is in the closure `all`. */
  lemma OverlayStep(layer: map<string, Glyph>, src: map<string, Glyph>, all: set<string>, seen: set<string>, n: string)
    requires n in src
    ensures Overlay(layer, src, all * (seen + {n})) ==
      if n in all then Overlay(layer, src, all * seen)[n := src[n]] else Overlay(layer, src, all * seen)
  {
    if n in all {
      assert all * (seen + {n}) == all * seen + {n};
    } else {
      assert all * (seen + {n}) == all * seen;
    }
  }

  /** Once the walk has seen every source glyph, the overlay is that of the
      whole closure. */
  lemma OverlayAllSeen(layer: map<string, Glyph>, src: map<string, Glyph>, all: set<string>, seen: set<string>)
    requires src.Keys <= seen
    ensures Overlay(layer, src, all * seen) == Overlay(layer, src, all)
  {
  }

  // ---------------------------------------------------------------- groups

  /** A group's members in the source, or nothing when the source has no
      group of that name. */
  function SourceMembers(srcGroups: map<string, seq<string>>, group: string): (members: seq<string>)
    ensures group !in srcGroups ==> members == []
    ensures group in srcGroups ==> members == srcGroups[group]
  {
    if group in srcGroups then srcGroups[group] else []
  }

  /** A target member that the pruning step removes when it meets it: a
      requested glyph that the same-named source group does not hold. */
  predicate Stale(name: string, keep: seq<string>, requested: seq<string>)
  {
    name !in keep && name in requested
  }

  /** Where `x` first occurs in `l`. */
  function FirstIndex(l: seq<string>, x: string): (k: nat)
    requires x in l
    ensures k < |l| && l[k] == x && x !in l[..k]
  {
    if l[0] == x then 0
    else
      assert x in l[1..] by { assert l == [l[0]] + l[1..]; }
      var k := FirstIndex(l[1..], x);
      assert l[..k + 1] == [l[0]] + l[1..][..k];
      k + 1
  }

  /** `r` is `l` without its element at `k`, the first occurrence of `x`. */
  predicate FirstAt(l: seq<string>, x: string, k: int, r: seq<string>)
  {
    0 <= k < |l| && l[k] == x && x !in l[..k] && r == l[..k] + l[k + 1..]
  }

  /** Removes the first occurrence of `x`, as a list's `remove` does: the
      elements before and after it stay, in their order. */
  function RemoveFirst(l: seq<string>, x: string): (r: seq<string>)
    requires x in l
    ensures exists k :: FirstAt(l, x, k, r)
    ensures |r| == |l| - 1
  {
    var k := FirstIndex(l, x);
    assert FirstAt(l, x, k, l[..k] + l[k + 1..]);
    l[..k] + l[k + 1..]
  }

  /** Removing takes away one `x` and nothing else. */
  lemma RemoveFirstCount(l: seq<string>, x: string)
    requires x in l
    ensures multiset(RemoveFirst(l, x)) == multiset(l) - multiset{x}
  {
    var k :| FirstAt(l, x, k, RemoveFirst(l, x));
    assert l == l[..k] + [x] + l[k + 1..];
  }

  /** The pruning loop over one group from position `i` on. It walks the
      list by index while removing from that same list, so each removal
      shifts the next member into the slot just visited, and that member is
      never looked at. */
  function PruneFrom(l: seq<string>, i: nat, keep: seq<string>, requested: seq<string>): (r: seq<string>)
    ensures multiset(r) <= multiset(l) && |r| <= |l|
    ensures forall x :: !Stale(x, keep, requested) ==> multiset(r)[x] == multiset(l)[x]
    decreases |l| - i
  {
    if i >= |l| then l
    else if Stale(l[i], keep, requested) then
      RemoveFirstCount(l, l[i]);
      PruneFrom(RemoveFirst(l, l[i]), i + 1, keep, requested)
    else PruneFrom(l, i + 1, keep, requested)
  }

  /** One target group after pruning. */
  function Pruned(l: seq<string>, keep: seq<string>, requested: seq<string>): seq<string>
  {
    PruneFrom(l, 0, keep, requested)
  }

  /** The walk from `i` on removes something exactly when it meets a stale
      member there, and otherwise leaves the list as it is. */
  lemma {:induction false} PruneFromRemoves(l: seq<string>, i: nat, keep: seq<string>, requested: seq<string>)
    ensures var r := PruneFrom(l, i, keep, requested);
      && ((exists j :: i <= j < |l| && Stale(l[j], keep, requested)) ==> |r| < |l|)
      && ((forall j :: i <= j < |l| ==> !Stale(l[j], keep, requested)) ==> r == l)
    decreases |l| - i
  {
    if i < |l| && !Stale(l[i], keep, requested) {
      PruneFromRemoves(l, i + 1, keep, requested);
    }
  }

  /** Pruning removes a member exactly when the group holds a stale one:
      at least the first stale member goes, and a group without one is
      left as it is. */
  lemma PrunedRemoves(l: seq<string>, keep: seq<string>, requested: seq<string>)
    ensures (exists j :: 0 <= j < |l| && Stale(l[j], keep, requested)) <==> |Pruned(l, keep, requested)| < |l|
    ensures (forall j :: 0 <= j < |l| ==> !Stale(l[j], keep, requested)) <==> Pruned(l, keep, requested) == l
  {
    PruneFromRemoves(l, 0, keep, requested);
  }

  /** All target groups after pruning: the same group names, each list
      pruned against its source namesake. */
  function PruneGroups(groups: map<string, seq<string>>, srcGroups: map<string, seq<string>>, requested: seq<string>): (r: map<string, seq<string>>)
    ensures r.Keys == groups.Keys
  {
    map k | k in groups :: Pruned(groups[k], SourceMembers(srcGroups, k), requested)
  }

  /** Two stale neighbours: the second one survives the pruning. */
  lemma PrunedSkipsNeighbour()
    ensures Pruned(["a", "b"], [], ["a", "b"]) == ["b"]
  {
    assert RemoveFirst(["a", "b"], "a") == ["b"];
    assert PruneFrom(["b"], 1, [], ["a", "b"]) == ["b"];
  }

  /** Adding one source member to a target group that exists: appended
      when it is requested and not there yet. */
  function AddMember(cur: seq<string>, x: string, requested: seq<string>): (r: seq<string>)
    ensures |cur| <= |r| <= |cur| + 1 && r[..|cur|] == cur
    ensures x in requested ==> x in r
    ensures |r| == |cur| + 1 <==> x in requested && x !in cur
  {
    if x in requested && x !in cur then cur + [x] else cur
  }

  /** A target group after the members of its source namesake have been
      added one by one, in source order. */
  function Refill(cur: seq<string>, src: seq<string>, requested: seq<string>): (r: seq<string>)
    ensures |cur| <= |r| && r[..|cur|] == cur
  {
    if src == [] then cur
    else AddMember(Refill(cur, src[..|src| - 1], requested), src[|src| - 1], requested)
  }

  lemma RefillSnoc(cur: seq<string>, src: seq<string>, j: int, requested: seq<string>)
    requires 0 <= j < |src|
    ensures Refill(cur, src[..j + 1], requested) == AddMember(Refill(cur, src[..j], requested), src[j], requested)
  {
    assert src[..j + 1][..j] == src[..j];
  }

  /** Refilling keeps the group as it was and appends, once each, exactly
      the requested source members it did not hold. */
  lemma {:induction false} RefillAppends(cur: seq<string>, src: seq<string>, requested: seq<string>)
    ensures var r := Refill(cur, src, requested);
      && |cur| <= |r| && r[..|cur|] == cur
      && (forall x :: x in src && x in requested ==> x in r)
      && (forall i :: |cur| <= i < |r| ==> r[i] in src && r[i] in requested && r[i] !in cur)
      && (forall i, j :: |cur| <= i < j < |r| ==> r[i] != r[j])
  {
    if src != [] {
      var init := src[..|src| - 1];
      RefillAppends(cur, init, requested);
      assert src == init + [src[|src| - 1]];
    }
  }

  /** Whether some member of a source group is requested. */
  predicate HasRequested(src: seq<string>, requested: seq<string>)
  {
    exists x :: x in src && x in requested
  }

  /** A source group with no requested member adds nothing. */
  lemma {:induction false} RefillNothingRequested(cur: seq<string>, src: seq<string>, requested: seq<string>)
    requires !HasRequested(src, requested)
    ensures Refill(cur, src, requested) == cur
  {
    if src != [] {
      var init := src[..|src| - 1];
      assert forall x :: x in init ==> x in src;
      RefillNothingRequested(cur, init, requested);
      assert src[|src| - 1] in src;
    }
  }

  /** Two sets of groups that agree away from `name`. */
  lemma AgreeAwayFrom(m: map<string, seq<string>>, m': map<string, seq<string>>, name: string, k: string)
    requires m - {name} == m' - {name} && k != name
    ensures (k in m <==> k in m') && (k in m ==> m[k] == m'[k])
  {
    assert k in m <==> k in m - {name};
    assert k in m' <==> k in m' - {name};
    if k in m {
      assert m[k] == (m - {name})[k];
    }
    if k in m' {
      assert m'[k] == (m' - {name})[k];
    }
  }

  /** The target's groups after the adding step: a group the target has is
      refilled from its source namesake; a group only the source has is
      created exactly when one of its members is requested. */
  function RefillGroups(groups: map<string, seq<string>>, srcGroups: map<string, seq<string>>, requested: seq<string>): (r: map<string, seq<string>>)
    ensures forall k :: k in r <==> k in groups || (k in srcGroups && HasRequested(srcGroups[k], requested))
  {
    map k | k in groups.Keys + srcGroups.Keys && (k in groups || HasRequested(srcGroups[k], requested)) ::
      if k in groups then Refill(groups[k], SourceMembers(srcGroups, k), requested)
      else Refill([], srcGroups[k], requested)
  }

  /** The groups after the last step: empty ones are deleted. */
  function DropEmpty(groups: map<string, seq<string>>): (r: map<string, seq<string>>)
    ensures forall k :: k in r <==> k in groups && groups[k] != []
    ensures forall k :: k in r ==> r[k] == groups[k]
  {
    map k | k in groups && groups[k] != [] :: groups[k]
  }

  // --------------------------------------------------------------- kerning

  /** A pair side naming a kerning group the target has, left empty. */
  predicate EmptyGroupSide(side: string, groups: map<string, seq<string>>)
  {
    "public.kern" <= side && side in groups && groups[side] == []
  }

  /** The first kerning step: pairs with a side naming an empty kerning
      group are deleted, every other pair is kept with its value. */
  function PruneKerning(kerning: map<Pair, int>, groups: map<string, seq<string>>): (r: map<Pair, int>)
    ensures forall p :: p in r <==> p in kerning && !EmptyGroupSide(p.0, groups) && !EmptyGroupSide(p.1, groups)
    ensures forall p :: p in r ==> r[p] == kerning[p]
  {
    map p | p in kerning && !EmptyGroupSide(p.0, groups) && !EmptyGroupSide(p.1, groups) :: kerning[p]
  }

  /** Whether a source pair is copied: a side in the group tables, or a
      side naming a requested glyph. */
  predicate Touches(p: Pair, leftGroups: set<string>, rightGroups: set<string>, requested: seq<string>)
  {
    p.0 in leftGroups || p.1 in rightGroups || p.0 in requested || p.1 in requested
  }

  /** The copying step: every source pair that touches the update is
      written into the target with its source value; other target pairs
      are kept. */
  function CopyPairs(kerning: map<Pair, int>, srcKerning: map<Pair, int>,
                     leftGroups: set<string>, rightGroups: set<string>, requested: seq<string>): (r: map<Pair, int>)
    ensures forall p :: p in srcKerning && Touches(p, leftGroups, rightGroups, requested) ==> p in r && r[p] == srcKerning[p]
    ensures forall p :: !(p in srcKerning && Touches(p, leftGroups, rightGroups, requested)) ==>
      (p in r <==> p in kerning) && (p in kerning ==> r[p] == kerning[p])
  {
    map p | p in kerning.Keys + srcKerning.Keys && (p in kerning || Touches(p, leftGroups, rightGroups, requested)) ::
      if p in srcKerning && Touches(p, leftGroups, rightGroups, requested) then srcKerning[p] else kerning[p]
  }

  // ----------------------------------------------------- the whole merge

  /** The target's groups after the merge, from those before it. */
  function MergedGroups(groups: map<string, seq<string>>, srcGroups: map<string, seq<string>>, requested: seq<string>): (r: map<string, seq<string>>)
    ensures forall k :: k in r ==> r[k] != [] && (k in groups || k in srcGroups)
  {
    DropEmpty(RefillGroups(PruneGroups(groups, srcGroups, requested), srcGroups, requested))
  }

  /** The target's kerning after the merge, from the state before it. The
      group tables of the copying step are never filled. */
  function MergedKerning(kerning: map<Pair, int>, groups: map<string, seq<string>>,
                         srcGroups: map<string, seq<string>>, srcKerning: map<Pair, int>, requested: seq<string>): (r: map<Pair, int>)
    ensures forall p :: p in r ==> p in kerning || p in srcKerning
    ensures forall p :: p in r && p !in srcKerning ==> r[p] == kerning[p]
  {
    CopyPairs(PruneKerning(kerning, PruneGroups(groups, srcGroups, requested)), srcKerning, {}, {}, requested)
  }

  /** After the merge every requested member of a source group is in the
      same-named target group, and no target group is empty. */
  lemma MergedGroupsHoldRequested(groups: map<string, seq<string>>, srcGroups: map<string, seq<string>>, requested: seq<string>, k: string, x: string)
    requires k in srcGroups && x in srcGroups[k] && x in requested
    ensures var r := MergedGroups(groups, srcGroups, requested); k in r && x in r[k]
  {
    var pruned := PruneGroups(groups, srcGroups, requested);
    var refilled := RefillGroups(pruned, srcGroups, requested);
    assert HasRequested(srcGroups[k], requested);
    RefillAppends(if k in pruned then pruned[k] else [], srcGroups[k], requested);
    assert k in refilled && x in refilled[k];
  }


  /** The appended members of a merged group are requested source members
      not in the group before, each appended once. A group the target did
      not have starts empty; a group the source does not have gets nothing
      appended. */
  lemma MergedGroupsAppendOnly(groups: map<string, seq<string>>, srcGroups: map<string, seq<string>>, requested: seq<string>, k: string)
    ensures var src := SourceMembers(srcGroups, k);
      var before := if k in groups then Pruned(groups[k], src, requested) else [];
      var r := MergedGroups(groups, srcGroups, requested);
      (before != [] ==> k in r) &&
      (k in r ==>
        && |before| <= |r[k]| && r[k][..|before|] == before
        && (forall i :: |before| <= i < |r[k]| ==> r[k][i] in src && r[k][i] in requested && r[k][i] !in before)
        && (forall i, j :: |before| <= i < j < |r[k]| ==> r[k][i] != r[k][j]))
  {
    var src := SourceMembers(srcGroups, k);
    RefillAppends(if k in groups then Pruned(groups[k], src, requested) else [], src, requested);
  }

  /** After the merge every source pair with a requested glyph on either
      side holds its source value. */
  lemma MergedKerningHoldsSourcePairs(kerning: map<Pair, int>, groups: map<string, seq<string>>,
                                      srcGroups: map<string, seq<string>>, srcKerning: map<Pair, int>, requested: seq<string>, p: Pair)
    requires p in srcKerning && (p.0 in requested || p.1 in requested)
    ensures var r := MergedKerning(kerning, groups, srcGroups, srcKerning, requested); p in r && r[p] == srcKerning[p]
  {
  }

  /** Because the group tables stay empty, only pairs that name a requested
      glyph directly are copied: a target pair that does not, and does not
      name an emptied kerning group, is kept with its value, even when the
      source has a different value for it. */
  lemma MergedKerningKeepsOthers(kerning: map<Pair, int>, groups: map<string, seq<string>>,
                                 srcGroups: map<string, seq<string>>, srcKerning: map<Pair, int>, requested: seq<string>, p: Pair)
    requires p in kerning && p.0 !in requested && p.1 !in requested
    requires var pruned := PruneGroups(groups, srcGroups, requested);
      !EmptyGroupSide(p.0, pruned) && !EmptyGroupSide(p.1, pruned)
    ensures var r := MergedKerning(kerning, groups, srcGroups, srcKerning, requested); p in r && r[p] == kerning[p]
  {
  }

  /** A source kerning group `public.kern1.A = [A, B]` with the pair
      `(public.kern1.A, V) = -40`, a target group `public.kern1.A = [B]`
      without the pair, and `A` requested: the target group becomes
      `[B, A]` (the target's order, with `A` appended), and the pair is not
      copied, since neither of its sides names a requested glyph. */
  lemma KernGroupScenario()
    ensures MergedGroups(map["public.kern1.A" := ["B"]], map["public.kern1.A" := ["A", "B"]], ["A"])
      == map["public.kern1.A" := ["B", "A"]]
    ensures ("public.kern1.A", "V") !in
      MergedKerning(map[], map["public.kern1.A" := ["B"]], map["public.kern1.A" := ["A", "B"]],
                    map[("public.kern1.A", "V") := -40], ["A"])
  {
    ScenarioGroups();
    ScenarioKerning();
  }

  lemma ScenarioGroups()
    ensures MergedGroups(map["public.kern1.A" := ["B"]], map["public.kern1.A" := ["A", "B"]], ["A"])
      == map["public.kern1.A" := ["B", "A"]]
  {
    ScenarioPruned();
    ScenarioRefilled();
    var refilled := map["public.kern1.A" := ["B", "A"]];
    assert DropEmpty(refilled) == refilled;
  }

  lemma ScenarioPruned()
    ensures PruneGroups(map["public.kern1.A" := ["B"]], map["public.kern1.A" := ["A", "B"]], ["A"])
      == map["public.kern1.A" := ["B"]]
  {
    assert PruneFrom(["B"], 1, ["A", "B"], ["A"]) == ["B"];
    assert Pruned(["B"], ["A", "B"], ["A"]) == ["B"];
  }

  lemma ScenarioRefilled()
    ensures RefillGroups(map["public.kern1.A" := ["B"]], map["public.kern1.A" := ["A", "B"]], ["A"])
      == map["public.kern1.A" := ["B", "A"]]
  {
    assert Refill(["B"], ["A"], ["A"]) == ["B", "A"];
    assert Refill(["B"], ["A", "B"], ["A"]) == ["B", "A"];
  }

  lemma ScenarioKerning()
    ensures ("public.kern1.A", "V") !in
      MergedKerning(map[], map["public.kern1.A" := ["B"]], map["public.kern1.A" := ["A", "B"]],
                    map[("public.kern1.A", "V") := -40], ["A"])
  {
    var pruned := PruneGroups(map["public.kern1.A" := ["B"]], map["public.kern1.A" := ["A", "B"]], ["A"]);
    assert PruneKerning(map[], pruned) == map[];
    assert !Touches(("public.kern1.A", "V"), {}, {}, ["A"]);
  }
}
