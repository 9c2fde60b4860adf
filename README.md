# ufotweak in Dafny

A model of the font-merging core of ufotweak, together with proofs about it.
ufotweak is a set of command line tools for UFO font sources.

- **The updater** (`ufotweak/update.py`).
  - It copies a requested list of glyphs from a source font into a target font. The component glyphs those glyphs reach are copied with them.
  - It then adjusts the target's kerning groups and kerning pairs.
  - It merges at most once and returns the target itself.
- **The earlier updater** (`lib/ufotweak/update.py`). It computes the same component closure, but only inserts glyphs.
- **The tweak tool** (`lib/ufotweak/__main__.py`). For each font it:
  - sets font info attributes from text options (integers, floats, strings, bit lists and integer lists);
  - drops the glyphs named in a comma-separated list;
  - assigns unicode values from a `name:hex,hex;...` list.

Files, one Dafny module each:

| file | module | contents |
|---|---|---|
| `fonts.dfy` | `Fonts` | the glyph, the source font (a value), the target font (a class changed in place) |
| `closure.dfy` | `Closure` | the component closure: its specification (least set that covers the roots), the recursive collection, lemmas |
| `reconcile.dfy` | `Reconcile` | each merge step stated as a function of the state before it, and lemmas about the whole merge |
| `update.dfy` | `Update` | `Updater`: the memoised merge, each step a method proved equal to its `Reconcile` function |
| `early_update.dfy` | `EarlyUpdate` | the earlier `Updater`: glyph step only |
| `text.dfy` | `Text` | Python's `split`, `replace`, `strip`, `int(s)`, `int(s, 16)` and `str(n)`, with round-trip lemmas |
| `tweak.dfy` | `Tweak` | the list parsers, the info-value dispatch, and the per-font loop as methods on a `UfoFont` class |

## How the model is shaped

- **The closure is specified, not just computed.**
  - The roots are the requested names that are source glyphs. Only those are visited, because the collection walks over the source.
  - `Closure.Covers(C)` says that C holds the roots and is closed under component references. A reference to a target glyph does not have to be followed when components are not overwritten.
  - `Closure.Least(C)` says that C lies inside every set that covers the roots.
  - Each call of the recursive `Closure.CollectComponents` returns a set that lies inside every cover (`Least`), and on success it has explored every glyph it reached. Its termination measure is the set of source names not yet collected, so it terminates on component cycles.
  - Only `Closure.CollectGlyphs`, after every requested glyph has been visited, establishes `Covers` as well: its result is the least cover.
- **The accumulator is threaded through the calls.** In the source, `_all_glyphs` is a field that the recursion mutates. Here it is passed in and returned by each call, which is equivalent for a set that only the recursion touches. `Update.Updater.allGlyphs` holds the result.
- **A missing component fails the lookup.** `self.source[name]` raises `KeyError` when a reached component is not a source glyph. This is modelled as `ok == false`:
  - the merge stops before any glyph is written;
  - the target is left as it was.
- **The memo is a flag.** `if not self._font` is modelled as a `computed` flag, set when the merge starts.
- **The loops over groups and kerning iterate over key sets.** Their order cannot matter: each key is handled on its own, and there is no `print` between keys.
- **The loop over the source keeps its order.** The glyph step iterates over `SourceFont.order`.

### Behaviour worth knowing

- **Groups and kerning are keyed on the requested list**, not on the closure (ufotweak/update.py:69, :95, :108). A component glyph pulled in by the closure does not gain or lose group memberships.
- **Pruning skips the neighbour of a removed member.** `_update_groups` removes members from a list while iterating over that same list:
  - `Reconcile.PruneFrom` walks the list by index;
  - `remove` deletes the first occurrence, and the index still advances, so the member that moves into the visited slot is never looked at;
  - `Reconcile.PrunedSkipsNeighbour` shows that two stale neighbours `["a", "b"]` leave `["b"]`;
  - the comment at ufotweak/update.py:59 speaks of removing every glyph that is in the target group but not in the source group. The loop removes only requested glyphs, and not all of those.
- **The merge runs in this order:**
  - prune the target groups;
  - drop the kerning pairs that name an empty group;
  - append the requested source members to the groups;
  - copy the source pairs that name a requested glyph;
  - delete the empty groups.

  Two things follow. Groups are never created before pruning. Kerning pairs that go stale are never removed, except those naming an empty kerning group. There is no pass for pairs naming a group that no longer exists.
- **The group tables stay empty.** `left_groups` and `right_groups` are never filled, so a pair that names only a kerning group is never copied. `Reconcile.KernGroupScenario` shows this:
  - the source has group `public.kern1.A = [A, B]` with pair `(public.kern1.A, V) = -40`;
  - the target has `public.kern1.A = [B]`, and `A` is requested;
  - the target group becomes `[B, A]`, in the target's order with `A` appended, not the source's order;
  - the pair is not copied.
- **Copying overwrites.** The comment at ufotweak/update.py:104 speaks of adding new kerning pairs. The loop also overwrites a target pair that the source has too, whenever the pair names a requested glyph.
- **No glyph order list is updated.**

## Model

| member | source | states |
|---|---|---|
| Closure.CollectComponents | ufotweak/update.py:45-56 | Visits one glyph's components. A visited name is skipped when already collected, or when it is a target glyph and components are not overwritten. The result lies inside every set covering the roots, and it holds everything collected before. On success the glyph and everything it reaches are explored. On failure a name outside the source was collected. Terminates for cyclic components. |
| Closure.CollectGlyphs | ufotweak/update.py:40-43 | Visits each requested glyph in source order. On success the result is the closure: it covers every requested source glyph, is closed under component references (except kept target glyphs), lies inside every such set, and holds only source glyphs. On failure a reached component is missing from the source. |
| Closure.ClosureUnique | ufotweak/update.py:40-56 | Two closures of the same roots are equal, so the result does not depend on the visiting order. |
| Closure.KeptTargetGlyphsOnlyIfRequested | ufotweak/update.py:52-56 | Without overwriting, a target glyph is in the closure only if it was requested itself. |
| Closure.OverwriteFollowsEveryComponent | ufotweak/update.py:48-56 | With overwriting, every component of a closure glyph is in the closure. |
| Closure.ClosureMonotonic | ufotweak/update.py:40-56 | Requesting more glyphs never shrinks the closure. |
| Closure.ClosureIdempotent | ufotweak/update.py:40-56 | Requesting a closure of source glyphs again gives the same set. |
| Closure.CycleClosure | ufotweak/update.py:48-56 | A and B, each a component of the other: requesting A collects exactly A and B. |
| Update.Updater.GetFont | ufotweak/update.py:15-19 | The first call merges and returns the target. A later call changes nothing and succeeds. |
| Update.Updater.UpdateFont | ufotweak/update.py:21-26 | Glyphs, then groups, then kerning. On success the target's glyphs, groups and kerning are the `Reconcile` functions of the state before. On a lookup failure the target is unchanged. |
| Update.Updater.UpdateGlyphs | ufotweak/update.py:28-38 | `allGlyphs` is the closure relative to the target's glyph names. The default layer is the old layer overlaid with the closure's source glyphs. |
| Update.Updater.InsertGlyphs | ufotweak/update.py:31-38 | Deleting and then inserting each closure glyph, in source order, gives the overlay. |
| Update.Updater.ReplaceGlyph | ufotweak/update.py:35-38 | Deleting a glyph of that name and then inserting the source glyph leaves the layer with the name bound to the source glyph. No other entry changes. |
| Reconcile.Overlay | ufotweak/update.py:32-38 | Each closure name that is a source glyph holds the source glyph. Every other name of the layer holds its old glyph, and no other name is added. |
| Update.PruneMembers | ufotweak/update.py:61-70 | The index loop that removes while it iterates computes `Pruned`. |
| Reconcile.FirstIndex | ufotweak/update.py:70 | The position `remove` deletes: it holds the name, and no earlier position does. |
| Reconcile.RemoveFirst | ufotweak/update.py:70 | `list.remove`: the result is the list without the element at the first occurrence of the name, the elements before and after it in their order. One fewer element. |
| Reconcile.RemoveFirstCount | ufotweak/update.py:70 | `remove` takes away exactly one occurrence of the name and nothing else. |
| Reconcile.PruneFrom | ufotweak/update.py:61-70 | Pruning adds nothing: the multiset shrinks, and so does the length. Every name that is not stale keeps all its occurrences. Stale means requested and absent from the source group. |
| Reconcile.PruneFromRemoves | ufotweak/update.py:61-70 | The walk from a position on shortens the list when it meets a stale member there, and leaves the list as it is when it meets none. |
| Reconcile.PrunedRemoves | ufotweak/update.py:61-71 | A pruned group is shorter iff it held a stale member, and is unchanged iff it held none. |
| Reconcile.PrunedSkipsNeighbour | ufotweak/update.py:61-70 | Two stale neighbours `["a","b"]` leave `["b"]`. |
| Update.Updater.UpdateGroups | ufotweak/update.py:58-71 | Every target group is pruned against its source namesake, and the group names stay the same. |
| Reconcile.PruneGroups | ufotweak/update.py:60-71 | Pruning keeps every group key. |
| Update.Updater.UpdateKerning | ufotweak/update.py:73-113 | The kerning is the source pairs that name a requested glyph, copied over the target pairs left after dropping those that name an empty group. The groups are refilled and then emptied groups are dropped. |
| Update.Updater.PruneKerningPairs | ufotweak/update.py:75-88 | Deletes exactly the pairs with a side that starts with `public.kern` and names a present, empty target group. Every other pair keeps its value. |
| Reconcile.PruneKerning | ufotweak/update.py:75-88 | Membership and values of the pruned kerning, as in the row above. |
| Update.Updater.AddGroupMembers | ufotweak/update.py:93-102 | Every source group is refilled into the target groups, one group at a time. |
| Update.Updater.AddMembersOf | ufotweak/update.py:94-102 | One group: created on its first requested member, then appended to without duplicates. No other group changes. |
| Reconcile.RefillAppends | ufotweak/update.py:93-102 | Refilling keeps the group as a prefix and holds every requested source member. What is appended is requested source members not already present, each appended once. |
| Reconcile.RefillNothingRequested | ufotweak/update.py:93-102 | A source group with no requested member leaves the target group as it was. |
| Reconcile.RefillGroups | ufotweak/update.py:93-102 | A group exists afterwards iff it existed in the target, or is a source group with a requested member. |
| Update.Updater.CopyKerningPairs | ufotweak/update.py:105-109 | `CopyPairs` with the group tables as the caller leaves them. |
| Reconcile.CopyPairs | ufotweak/update.py:105-109 | Each source pair touching the update holds the source value. Every other pair is as before. |
| Update.Updater.DropEmptyGroups | ufotweak/update.py:111-113 | Deletes exactly the empty groups. |
| Reconcile.DropEmpty | ufotweak/update.py:111-113 | A group remains iff it is non-empty, with its members unchanged. |
| Reconcile.AddMember | ufotweak/update.py:94-102 | One source member: the group stays a prefix and grows by at most one. A requested member is in the result. The group grows iff the member is requested and not yet in it. |
| Reconcile.Refill | ufotweak/update.py:94-102 | Adding a source group's members one by one keeps the target group as a prefix. |
| Reconcile.MergedGroups | ufotweak/update.py:58-113 | After the merge no target group is empty, and every group was a target group or a source group. |
| Reconcile.MergedKerning | ufotweak/update.py:73-113 | After the merge every pair was a target or a source pair. A pair the source does not have keeps its target value. |
| Reconcile.MergedGroupsHoldRequested | ufotweak/update.py:93-113 | After the merge, every requested member of a source group is in the target group of the same name. |
| Reconcile.MergedGroupsAppendOnly | ufotweak/update.py:58-113 | For every group name: a merged group is its pruned self, followed by requested source members not in it, none twice. A group new to the target holds only such members. A group the source lacks gets nothing appended. |
| Reconcile.MergedKerningHoldsSourcePairs | ufotweak/update.py:105-109 | After the merge, every source pair with a requested glyph on either side holds the source value. |
| Reconcile.MergedKerningKeepsOthers | ufotweak/update.py:91-109 | A target pair that names no requested glyph and no emptied group keeps its value, even when the source has another. |
| Reconcile.KernGroupScenario | ufotweak/update.py:58-113 | The source group `[A,B]`, target group `[B]` and request `A` give `[B,A]`. The group-named pair is not copied. |
| EarlyUpdate.Updater.GetFont | lib/ufotweak/update.py:16-20 | The first call runs the glyph step. Groups and kerning never change. A later call changes nothing. |
| EarlyUpdate.Updater.UpdateFont | lib/ufotweak/update.py:22-27 | Only the glyph step: the closure and the overlay. Groups and kerning stay unchanged. |
| EarlyUpdate.Updater.UpdateGlyphs | lib/ufotweak/update.py:29-42 | `allGlyphs` is the same closure as in the updater. Only closure glyphs of the source are written. |
| EarlyUpdate.Updater.InsertGlyphs | lib/ufotweak/update.py:32-37 | Inserting each closure glyph over its namesake, in source order, gives the overlay. |
| Text.Split | lib/ufotweak/__main__.py:87-89 | `split` always gives at least one field. |
| Text.SplitJoin | lib/ufotweak/__main__.py:82 | `split` loses nothing: joining the fields gives the string back. There is one field per separator, plus one, and no field holds the separator. |
| Text.JoinSplit | lib/ufotweak/__main__.py:87-91 | Joining fields that hold no separator and splitting again gives the same fields back. |
| Text.ReplaceCommaSpace | lib/ufotweak/__main__.py:82 | The replacement never lengthens the text. |
| Text.ReplaceKeepsCommas | lib/ufotweak/__main__.py:82 | Replacing `", "` by `","` keeps the number of commas. |
| Text.ReplaceFields | lib/ufotweak/__main__.py:82 | After the replacement the first comma-separated name is as before, and every later one has lost the single space that followed its comma, if it had one. |
| Text.Strip | lib/ufotweak/__main__.py:53 | The result neither starts nor ends with whitespace. |
| Text.StripMeaning | lib/ufotweak/__main__.py:53 | The text is the result with whitespace-only text before and after it. |
| Text.ParseInt | lib/ufotweak/__main__.py:53-56 | `int(s)`: text that is blank once stripped is a ValueError. |
| Text.ParseHex | lib/ufotweak/__main__.py:91 | `int(s, 16)`: text that is blank once stripped is a ValueError. |
| Text.HexSignBeforePrefix | lib/ufotweak/__main__.py:91 | The sign goes before the `0x` prefix: `"-0x1"` reads as -1. |
| Text.HexSignAfterPrefix | lib/ufotweak/__main__.py:91 | A sign after the prefix is rejected: `"0x-1"` is a ValueError. |
| Text.ParseIntStripped | lib/ufotweak/__main__.py:53 | `int(s.strip())` equals `int(s)`. |
| Text.DecimalRoundTrip | lib/ufotweak/__main__.py:56 | `int(str(n)) == n` for every integer. |
| Text.HexRoundTrip | lib/ufotweak/__main__.py:91 | `int(c, 16)` reads back every lower-case hex numeral. |
| Tweak.CollectMeaning | lib/ufotweak/__main__.py:56 | A comprehension of conversions fails, with a ValueError, iff one conversion fails. Otherwise it gives every converted value, in order. |
| Tweak.IntsMeaning | lib/ufotweak/__main__.py:56 | The integer list fails, with a ValueError, iff some field is not an integer. Otherwise it has one integer per field, in order. |
| Tweak.ShiftsOf | lib/ufotweak/__main__.py:53 | Fields that read as bit numbers give the sum of `2^i` over them. |
| Tweak.ParseBitlist | lib/ufotweak/__main__.py:51-53 | The assertion fails iff the text is not bracketed. A bracketed text fails only with a ValueError. |
| Tweak.ParseList | lib/ufotweak/__main__.py:54-56 | The same two error cases. On success there is one integer per comma, plus one. |
| Tweak.ParseDict | lib/ufotweak/__main__.py:57-58 | The dictionary parser gives `None` for every text. |
| Tweak.ParseListRoundTrip | lib/ufotweak/__main__.py:54-56 | Every non-empty integer list written `[a,b,...]` parses back to itself. |
| Tweak.ParseBitlistRoundTrip | lib/ufotweak/__main__.py:51-53 | A bit list `[i,j,...]` parses to the sum of `2^i` over the listed bits. |
| Tweak.BitlistExamples | lib/ufotweak/__main__.py:53 | `"[0,3]"` gives 9. `"[0,0]"` gives 2: a sum, not an OR. |
| Tweak.ListErrors | lib/ufotweak/__main__.py:51-56 | Without the brackets both parsers fail their assertion. `"[]"` is a ValueError. |
| Tweak.InfoSetting | lib/ufotweak/__main__.py:63-68 | An attribute is set, or fails, only when its type has an option and the option was given. |
| Tweak.ConvertInfo | lib/ufotweak/__main__.py:69-80 | A failure is a usage error for an integer or float option, and an assertion or ValueError for an integer list. An empty integer or float option is a usage error. The attribute is left untouched iff its type is none of integer, string, float, integer list and dictionary list. |
| Tweak.IntegerListDispatch | lib/ufotweak/__main__.py:69-78 | Bit-list keys use the bit-list parser, other integer-list keys the list parser. An empty text sets a string or integer-list attribute to None. |
| Tweak.DictListNeverSet | lib/ufotweak/__main__.py:24-38 | No option exists for dictionary-list and other attributes, so they are never set. |
| Tweak.InfoAfterSets | lib/ufotweak/__main__.py:63-80 | On success each listed attribute holds what its option says. Attributes without a setting, and unlisted attributes, are unchanged. |
| Tweak.ApplySets | lib/ufotweak/__main__.py:63-80 | Applying settings with distinct keys in order: each key holds its own setting, and every other key is unchanged. |
| Tweak.ApplyInfo | lib/ufotweak/__main__.py:63-80 | The loop over the attributes computes `InfoAfter`, and stops at the first failure with that failure. |
| Tweak.DropNamesCount | lib/ufotweak/__main__.py:82 | The drop option names one glyph per comma, plus one. |
| Tweak.DropGlyphs | lib/ufotweak/__main__.py:81-85 | Exactly the listed glyphs that the font has are deleted. Unknown names are ignored. |
| Tweak.ApplyEntry | lib/ufotweak/__main__.py:89-92 | One entry fails only with a ValueError or a KeyError. On success the named glyph exists, no glyph is added or removed, and every other glyph keeps its codes. |
| Tweak.EntryRoundTrip | lib/ufotweak/__main__.py:89-92 | An entry `name:h1,h2` sets exactly those codes, in that order, on a glyph the font has. |
| Tweak.UnicodesKeepOtherGlyphs | lib/ufotweak/__main__.py:86-92 | Setting unicodes adds and removes no glyph, and a glyph that no entry names keeps its codes. |
| Tweak.SetUnicodes | lib/ufotweak/__main__.py:86-92 | The loop over the `;` entries computes `UnicodesAfter`, and stops at the first ValueError or KeyError. |
| Tweak.TweakFont | lib/ufotweak/__main__.py:60-94 | One font: info, then drop, then unicodes. The first failure stops it. |

## Left out

- Loading and saving fonts with the font library, and the `main` functions' argument wiring. `print` calls are left out as well. The fonts are given as values, and the option values as optional strings.
- The `--glyphs-txt` file reading. The requested list is a given sequence of names.
- A missing `--glyphs` option. In lib/ufotweak/update.py:76-78 it leaves the requested list `None`, and the membership test at line 41 raises `TypeError` once the source has a glyph. In ufotweak/update.py:145-155, giving neither `--glyphs` nor `--glyphs-txt` leaves `glyphs` unbound, and line 155 raises `UnboundLocalError`. Neither is modelled.
- Python's recursion limit. `_collect_components` recurses once per newly collected component (ufotweak/update.py:55, lib/ufotweak/update.py:54). A component chain deeper than the interpreter's limit, about 1000 by default, raises `RecursionError`. The model's recursion has no depth bound.
- The `layers` argument: it is accepted and never used. Only the default layer is modelled.
- Outlines, anchors, glyph lib data and non-default layers: glyphs are a name with their component names.
- The fontTools table of info attributes. Each attribute is given as a name with a type tag. The order of visits is the sequence given; sorted order in the source.
- Tweak.ConvertInfo: float conversion is not modelled. A float option keeps its text, and only the empty text is rejected. Malformed text such as `abc`, which the argument parser rejects, is accepted here.
- Parts of Python's `int()` grammar: Unicode digits and `_` separators.
- Text.ParseInt: Python's limit on the length of base-10 numerals is not modelled. Since 3.11 (and in the 3.7.14-3.10.7 security releases), `int(s)` on text of more than 4300 digits is a `ValueError`; this applies at lib/ufotweak/__main__.py:53 and :56 and in the argument parser's integer conversion. The model parses numerals of any length, so `Text.DecimalRoundTrip` and `Tweak.ParseListRoundTrip` hold in Python only for numbers of at most 4300 digits.
- Tweak.ParseBitlist: Python's limits on shifts are not modelled. At lib/ufotweak/__main__.py:53, `1 << n` raises `OverflowError` for a bit number of 2^63 or more, and runs out of memory well before that. The model gives the sum for every bit number, so its claim that a bracketed text fails only with a `ValueError`, and `Tweak.ParseBitlistRoundTrip`, hold only for bit numbers below those limits.
- Tweak.TweakFont: an argument-parser error happens before any font is opened. Here it surfaces as a `UsageError` from the first attribute with a malformed integer option or an empty float option.
- Update.Updater.GetFont: after a failing merge the source leaves `_font` set, and a later access returns the target. The lookup that fails runs during the collection, before any glyph, group or pair is written, so that target is unchanged. The model's flag stops there too, but how truthy a font is belongs to the font library and is not modelled.
- The order of dictionary iteration in the group and kerning loops. It cannot change their result.
- The key `openTypeOSUnicodeRanges` is kept as the source spells it. Whether a fontTools attribute has that name is not part of this model.
