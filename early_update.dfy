/** The earlier updater of the repository: it collects the same component
    closure and copies those glyphs into the target's default layer, and
    does nothing else. */
module EarlyUpdate {
  import opened Fonts
  import Closure
  import opened Reconcile

  class Updater {
    const source: SourceFont
    const target: Font
    /** The requested glyph names, as given. */
    const glyphs: seq<string>
    const overwriteComponents: bool
    /** The component closure, filled by the glyph step. */
    var allGlyphs: set<string>
    /** Whether the merge has been started: the memo of `GetFont`. */
    var computed: bool

    ghost predicate Valid()
      reads this
    {
      source.Valid() && (!computed ==> allGlyphs == {})
    }

    constructor (source: SourceFont, target: Font, glyphs: seq<string>, overwriteComponents: bool)
      requires source.Valid()
      ensures Valid()
      ensures this.source == source && this.target == target && this.glyphs == glyphs
      ensures this.overwriteComponents == overwriteComponents
      ensures !computed && allGlyphs == {}
    {
      this.source := source;
      this.target := target;
      this.glyphs := glyphs;
      this.overwriteComponents := overwriteComponents;
      allGlyphs := {};
      computed := false;
    }

    /** `allGlyphs` is the least set covering the request relative to the
        target's glyph names `names`; it is a set of source glyphs exactly
        when no reached component is missing from the source (`ok`). */
    ghost predicate IsClosure(ok: bool, names: set<string>)
      reads this
    {
      var roots := Closure.Roots(source.glyphs, glyphs);
      && Closure.Least(source.glyphs, names, overwriteComponents, roots, allGlyphs)
      && (ok ==> Closure.Covers(source.glyphs, names, overwriteComponents, roots, allGlyphs))
      && (ok <==> allGlyphs <= source.glyphs.Keys)
    }

    /** The merged target, merging on the first call only. */
    method GetFont() returns (font: Font, ok: bool)
      requires Valid()
      modifies this, target
      ensures Valid() && computed && font == target
      ensures !old(computed) ==> IsClosure(ok, old(target.glyphs).Keys)
      ensures !old(computed) ==>
        target.glyphs == if ok then Overlay(old(target.glyphs), source.glyphs, allGlyphs) else old(target.glyphs)
      ensures target.groups == old(target.groups) && target.kerning == old(target.kerning)
      ensures old(computed) ==> ok && allGlyphs == old(allGlyphs) && target.glyphs == old(target.glyphs)
    {
      if !computed {
        ok := UpdateFont();
      } else {
        ok := true;
      }
      font := target;
    }

    /** The merge: the glyph step only, so the target's groups and kerning
        are left as they were. */
    method UpdateFont() returns (ok: bool)
      requires Valid() && !computed
      modifies this, target
      ensures Valid() && computed
      ensures IsClosure(ok, old(target.glyphs).Keys)
      ensures target.glyphs == if ok then Overlay(old(target.glyphs), source.glyphs, allGlyphs) else old(target.glyphs)
      ensures target.groups == old(target.groups) && target.kerning == old(target.kerning)
    {
      computed := true;
      ok := UpdateGlyphs();
    }

    /** Collects the closure, then inserts every source glyph in it, in
        source order, into the target's default layer, replacing a glyph
        of the same name. */
    method UpdateGlyphs() returns (ok: bool)
      requires Valid() && computed && allGlyphs == {}
      modifies this`allGlyphs, target`glyphs
      ensures Valid()
      ensures IsClosure(ok, old(target.glyphs).Keys)
      ensures target.glyphs == if ok then Overlay(old(target.glyphs), source.glyphs, allGlyphs) else old(target.glyphs)
    {
      allGlyphs, ok := Closure.CollectGlyphs(source, target.glyphs.Keys, overwriteComponents, glyphs);
      if ok {
        InsertGlyphs();
      }
    }

    /** The loop of the glyph step over the source. */
    method InsertGlyphs()
      requires source.Valid()
      modifies target`glyphs
      ensures target.glyphs == Overlay(old(target.glyphs), source.glyphs, allGlyphs)
    {
      ghost var layer0 := target.glyphs;
      ghost var seen: set<string> := {};
      var k := 0;
      while k < |source.order|
        invariant 0 <= k <= |source.order|
        invariant forall n :: n in seen <==> n in source.order[..k]
        invariant target.glyphs == Overlay(layer0, source.glyphs, allGlyphs * seen)
      {
        var name := source.order[k];
        assert source.order[..k + 1] == source.order[..k] + [name];
        OverlayStep(layer0, source.glyphs, allGlyphs, seen, name);
        if name in allGlyphs {
          target.glyphs := target.glyphs[name := source.glyphs[name]];
        }
        seen := seen + {name};
        k := k + 1;
      }
      assert source.order[..k] == source.order;
      OverlayAllSeen(layer0, source.glyphs, allGlyphs, seen);
    }
  }
}
