/** The updater: merges requested glyphs, with the component glyphs they
    depend on, from a source font into a target font, then adjusts the
    target's groups and kerning. The target is changed in place; the merge
    runs at most once per updater and its result is the target itself. */
module Update {
  import opened Fonts
  import Closure
  import opened Reconcile

  /** Prunes one target group, walking it by index while removing from it:
      a member that is requested and missing from the same-named source
      group (`keep`) has its first occurrence removed, and the walk goes on
      at the next index. */
  method PruneMembers(members: seq<string>, keep: seq<string>, requested: seq<string>) returns (list: seq<string>)
    ensures list == Pruned(members, keep, requested)
  {
    list := members;
    var i := 0;
    while i < |list|
      invariant PruneFrom(list, i, keep, requested) == Pruned(members, keep, requested)
      decreases |list| - i
    {
      var name := list[i];
      i := i + 1;
      if name !in keep && name in requested {
        list := RemoveFirst(list, name);
      }
    }
  }

  class Updater {
    const source: SourceFont
    const target: Font
    /** The requested glyph names, as given. */
    const glyphs: seq<string>
    const overwriteComponents: bool
    /** The component closure, filled by the glyph step. */
    var allGlyphs: set<string>
    /** Whether the merge has been started: the memo of `GetFont`. */
    var computed: bool

    ghost predicate Valid()
      reads this
    {
      source.Valid() && (!computed ==> allGlyphs == {})
    }

    constructor (source: SourceFont, target: Font, glyphs: seq<string>, overwriteComponents: bool)
      requires source.Valid()
      ensures Valid()
      ensures this.source == source && this.target == target && this.glyphs == glyphs
      ensures this.overwriteComponents == overwriteComponents
      ensures !computed && allGlyphs == {}
    {
      this.source := source;
      this.target := target;
      this.glyphs := glyphs;
      this.overwriteComponents := overwriteComponents;
      allGlyphs := {};
      computed := false;
    }

    /** `allGlyphs` is the closure of the request relative to the target's
        glyph names `names`: the least set that covers the collection's
        roots; it is a set of source glyphs exactly when no reached
        component is missing from the source (`ok`). */
    ghost predicate IsClosure(ok: bool, names: set<string>)
      reads this
    {
      var roots := Closure.Roots(source.glyphs, glyphs);
      && Closure.Least(source.glyphs, names, overwriteComponents, roots, allGlyphs)
      && (ok ==> Closure.Covers(source.glyphs, names, overwriteComponents, roots, allGlyphs))
      && (ok <==> allGlyphs <= source.glyphs.Keys)
    }

    /** The state after a merge that started from `layer0`, `groups0` and
        `kerning0`: on success the closure is copied and groups and kerning
        adjusted; on a lookup failure the target is untouched. */
    ghost predicate Merged(ok: bool, layer0: map<string, Glyph>, groups0: map<string, seq<string>>, kerning0: map<Pair, int>)
      reads this, target
    {
      && IsClosure(ok, layer0.Keys)
      && (ok ==>
            && target.glyphs == Overlay(layer0, source.glyphs, allGlyphs)
            && target.groups == MergedGroups(groups0, source.groups, glyphs)
            && target.kerning == MergedKerning(kerning0, groups0, source.groups, source.kerning, glyphs))
      && (!ok ==> target.glyphs == layer0 && target.groups == groups0 && target.kerning == kerning0)
    }

    /** The merged target, merging on the first call only. */
    method GetFont() returns (font: Font, ok: bool)
      requires Valid()
      modifies this, target
      ensures Valid() && computed && font == target
      ensures !old(computed) ==> Merged(ok, old(target.glyphs), old(target.groups), old(target.kerning))
      ensures old(computed) ==> ok && allGlyphs == old(allGlyphs)
      ensures old(computed) ==> unchanged(target)
    {
      if !computed {
        ok := UpdateFont();
      } else {
        ok := true;
      }
      font := target;
    }

    /** The merge: glyphs, then groups, then kerning. A lookup failure in
        the glyph step aborts it. */
    method UpdateFont() returns (ok: bool)
      requires Valid() && !computed
      modifies this, target
      ensures Valid() && computed
      ensures Merged(ok, old(target.glyphs), old(target.groups), old(target.kerning))
    {
      computed := true;
      ok := UpdateGlyphs();
      if ok {
        UpdateGroups();
        UpdateKerning();
      }
    }

    /** Collects the closure, then, for every source glyph in it in source
        order, deletes the target's glyph of that name and inserts the
        source glyph. */
    method UpdateGlyphs() returns (ok: bool)
      requires Valid() && computed && allGlyphs == {}
      modifies this`allGlyphs, target`glyphs
      ensures Valid()
      ensures IsClosure(ok, old(target.glyphs).Keys)
      ensures target.glyphs == if ok then Overlay(old(target.glyphs), source.glyphs, allGlyphs) else old(target.glyphs)
    {
      allGlyphs, ok := Closure.CollectGlyphs(source, target.glyphs.Keys, overwriteComponents, glyphs);
      if ok {
        InsertGlyphs();
      }
    }

    /** The loop of the glyph step over the source. */
    method InsertGlyphs()
      requires source.Valid()
      modifies target`glyphs
      ensures target.glyphs == Overlay(old(target.glyphs), source.glyphs, allGlyphs)
    {
      ghost var layer0 := target.glyphs;
      ghost var seen: set<string> := {};
      var k := 0;
      while k < |source.order|
        invariant 0 <= k <= |source.order|
        invariant forall n :: n in seen <==> n in source.order[..k]
        invariant target.glyphs == Overlay(layer0, source.glyphs, allGlyphs * seen)
      {
        var name := source.order[k];
        assert source.order[..k + 1] == source.order[..k] + [name];
        OverlayStep(layer0, source.glyphs, allGlyphs, seen, name);
        if name in allGlyphs {
          ReplaceGlyph(name, source.glyphs[name]);
        }
        seen := seen + {name};
        k := k + 1;
      }
      assert source.order[..k] == source.order;
      OverlayAllSeen(layer0, source.glyphs, allGlyphs, seen);
    }

    /** Deletes the target's glyph of that name, if any, then inserts
        the given glyph under the name. */
    method ReplaceGlyph(name: string, glyph: Glyph)
      modifies target`glyphs
      ensures target.glyphs == old(target.glyphs)[name := glyph]
    {
      if name in target.glyphs {
        target.glyphs := target.glyphs - {name};
      }
      target.glyphs := target.glyphs[name := glyph];
    }

    /** Removes from every target group the requested glyphs that the
        same-named source group does not hold, as `PruneMembers` does
        (which leaves some of them); keeps every group name. */
    method UpdateGroups()
      modifies target`groups
      ensures target.groups == PruneGroups(old(target.groups), source.groups, glyphs)
    {
      ghost var groups0 := target.groups;
      var todo := target.groups.Keys;
      while todo != {}
        invariant todo <= groups0.Keys && target.groups.Keys == groups0.Keys
        invariant forall k :: k in todo ==> target.groups[k] == groups0[k]
        invariant forall k :: k in groups0 && k !in todo ==>
          target.groups[k] == Pruned(groups0[k], SourceMembers(source.groups, k), glyphs)
        decreases todo
      {
        var name :| name in todo;
        var list := PruneMembers(target.groups[name], SourceMembers(source.groups, name), glyphs);
        target.groups := target.groups[name := list];
        todo := todo - {name};
      }
    }

    /** Deletes the pairs naming an emptied kerning group, adds the
        requested members of every source group to the target group of the
        same name, copies the source pairs that name a requested glyph, and
        deletes the groups left empty. */
    method UpdateKerning()
      modifies target`groups, target`kerning
      ensures target.kerning == CopyPairs(PruneKerning(old(target.kerning), old(target.groups)), source.kerning, {}, {}, glyphs)
      ensures target.groups == DropEmpty(RefillGroups(old(target.groups), source.groups, glyphs))
    {
      PruneKerningPairs();
      var leftGroups: set<string> := {};
      var rightGroups: set<string> := {};
      AddGroupMembers();
      CopyKerningPairs(leftGroups, rightGroups);
      DropEmptyGroups();
    }

    /** The first kerning step. */
    method PruneKerningPairs()
      modifies target`kerning
      ensures target.kerning == PruneKerning(old(target.kerning), target.groups)
    {
      ghost var kerning0 := target.kerning;
      var todo := target.kerning.Keys;
      while todo != {}
        invariant todo <= kerning0.Keys
        invariant forall p :: p in target.kerning <==>
          p in kerning0 && (p in todo || (!EmptyGroupSide(p.0, target.groups) && !EmptyGroupSide(p.1, target.groups)))
        invariant forall p :: p in target.kerning ==> target.kerning[p] == kerning0[p]
        decreases todo
      {
        var pair :| pair in todo;
        var (left, right) := pair;
        if "public.kern" <= left && left in target.groups && target.groups[left] == [] {
          target.kerning := target.kerning - {pair};
        } else if "public.kern" <= right && right in target.groups && target.groups[right] == [] {
          target.kerning := target.kerning - {pair};
        }
        todo := todo - {pair};
      }
    }

    /** Adds, source group by source group, each requested member to the
        target group of that name, creating the group on the first such
        member and appending a member only when it is not there yet. */
    method AddGroupMembers()
      modifies target`groups
      ensures target.groups == RefillGroups(old(target.groups), source.groups, glyphs)
    {
      ghost var groups0 := target.groups;
      ghost var refilled := RefillGroups(groups0, source.groups, glyphs);
      var todo := source.groups.Keys;
      while todo != {}
        invariant todo <= source.groups.Keys
        invariant forall k :: k in todo ==> (k in target.groups <==> k in groups0)
        invariant forall k :: k in todo && k in groups0 ==> target.groups[k] == groups0[k]
        invariant forall k :: k !in todo ==> (k in target.groups <==> k in refilled)
        invariant forall k :: k !in todo && k in target.groups ==> target.groups[k] == refilled[k]
        decreases todo
      {
        var name :| name in todo;
        ghost var before := target.groups;
        AddMembersOf(name, groups0);
        forall k | k != name
          ensures (k in target.groups <==> k in before) && (k in before ==> target.groups[k] == before[k])
        {
          AgreeAwayFrom(target.groups, before, name, k);
        }
        todo := todo - {name};
      }
    }

    /** The adding step for one source group. */
    method AddMembersOf(name: string, ghost groups0: map<string, seq<string>>)
      requires name in source.groups
      requires name in target.groups <==> name in groups0
      requires name in groups0 ==> target.groups[name] == groups0[name]
      modifies target`groups
      ensures target.groups - {name} == old(target.groups) - {name}
      ensures name in target.groups <==> name in RefillGroups(groups0, source.groups, glyphs)
      ensures name in target.groups ==> target.groups[name] == RefillGroups(groups0, source.groups, glyphs)[name]
    {
      var members := source.groups[name];
      ghost var start := if name in groups0 then groups0[name] else [];
      var j := 0;
      while j < |members|
        invariant 0 <= j <= |members|
        invariant target.groups - {name} == old(target.groups) - {name}
        invariant name in target.groups <==> name in groups0 || HasRequested(members[..j], glyphs)
        invariant name in target.groups ==> target.groups[name] == Refill(start, members[..j], glyphs)
      {
        var glyphName := members[j];
        RefillSnoc(start, members, j, glyphs);
        if glyphName in glyphs {
          if name !in target.groups {
            RefillNothingRequested(start, members[..j], glyphs);
            target.groups := target.groups[name := [glyphName]];
          } else if glyphName !in target.groups[name] {
            target.groups := target.groups[name := target.groups[name] + [glyphName]];
          }
        }
        assert HasRequested(members[..j + 1], glyphs) <==> HasRequested(members[..j], glyphs) || glyphName in glyphs;
        j := j + 1;
      }
      assert members[..|members|] == members;
    }

    /** The copying step; the two group tables are passed in as the
        caller left them. */
    method CopyKerningPairs(leftGroups: set<string>, rightGroups: set<string>)
      modifies target`kerning
      ensures target.kerning == CopyPairs(old(target.kerning), source.kerning, leftGroups, rightGroups, glyphs)
    {
      ghost var kerning0 := target.kerning;
      var todo := source.kerning.Keys;
      while todo != {}
        invariant todo <= source.kerning.Keys
        invariant forall p :: p in source.kerning && p !in todo && Touches(p, leftGroups, rightGroups, glyphs) ==>
          p in target.kerning && target.kerning[p] == source.kerning[p]
        invariant forall p :: !(p in source.kerning && p !in todo && Touches(p, leftGroups, rightGroups, glyphs)) ==>
          (p in target.kerning <==> p in kerning0) && (p in kerning0 ==> target.kerning[p] == kerning0[p])
        decreases todo
      {
        var pair :| pair in todo;
        var (left, right) := pair;
        if left in leftGroups || right in rightGroups || left in glyphs || right in glyphs {
          target.kerning := target.kerning[pair := source.kerning[pair]];
        }
        todo := todo - {pair};
      }
    }

    /** The last step: deletes every empty target group. */
    method DropEmptyGroups()
      modifies target`groups
      ensures target.groups == DropEmpty(old(target.groups))
    {
      ghost var groups0 := target.groups;
      var todo := target.groups.Keys;
      while todo != {}
        invariant todo <= groups0.Keys
        invariant forall k :: k in target.groups <==> k in groups0 && (k in todo || groups0[k] != [])
        invariant forall k :: k in target.groups ==> target.groups[k] == groups0[k]
        decreases todo
      {
        var name :| name in todo;
        if target.groups[name] == [] {
          target.groups := target.groups - {name};
        }
        todo := todo - {name};
      }
    }
  }
}
