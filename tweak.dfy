/** The font-tweaking command line tool: font info attributes given as
    text, a list of glyphs to drop and a list of unicode assignments,
    applied to each font in turn. */
module Tweak {
  import opened Text

  /** The exceptions that abort the tool. `UsageError` is the argument
      parser rejecting a value. */
  datatype Error = AssertionError | ValueError | KeyError | UsageError

  datatype Result<T> = Ok(value: T) | Err(error: Error)

  datatype Outcome = Pass | Fail(error: Error)

  // --------------------------------------------------------- list parsers

  /** The info attributes whose integer list is given as a bit list. */
  const BitlistKeys: set<string> :=
    {"openTypeHeadFlags", "openTypeOS2Selection", "openTypeOS2CodePageRanges", "openTypeOSUnicodeRanges"}

  /** `s[1:-1]`: the text between the first and last character, empty for
      a string shorter than two. */
  function Inner(s: string): string
  {
    if |s| >= 2 then s[1..|s| - 1] else []
  }

  /** The assertion both list parsers make. */
  predicate Bracketed(s: string)
  {
    |s| >= 1 && s[0] == '[' && s[|s| - 1] == ']'
  }

  function Pow2(i: nat): (p: nat)
    ensures p >= 1
  {
    if i == 0 then 1 else 2 * Pow2(i - 1)
  }

  /** The sum of `2^i` over a list of bit numbers. */
  function SumPow2(bits: seq<nat>): nat
  {
    if bits == [] then 0 else Pow2(bits[0]) + SumPow2(bits[1..])
  }

  /** `int(f.strip())` for each field, in order: None where the field is
      not an integer. */
  function StrippedInts(fields: seq<string>): seq<Option<int>>
  {
    seq(|fields|, i requires 0 <= i < |fields| => ParseInt(Strip(fields[i])))
  }

  /** `int(f)` for each field, in order. */
  function PlainInts(fields: seq<string>): seq<Option<int>>
  {
    seq(|fields|, i requires 0 <= i < |fields| => ParseInt(fields[i]))
  }

  /** `sum([1 << v for v in values])`, evaluated left to right: a value that
      is not an integer, or a negative one (a negative shift), is a
      ValueError. */
  function Shifts(values: seq<Option<int>>): (r: Result<nat>)
    ensures r.Err? ==> r.error == ValueError
  {
    if values == [] then Ok(0)
    else if values[0].None? || values[0].value < 0 then Err(ValueError)
    else
      var rest := Shifts(values[1..]);
      if rest.Err? then rest else Ok(Pow2(values[0].value) + rest.value)
  }

  /** A list comprehension of conversions: the first failing one aborts it
      with a ValueError. */
  function Collect(values: seq<Option<int>>): (r: Result<seq<int>>)
    ensures r.Err? ==> r.error == ValueError
  {
    if values == [] then Ok([])
    else if values[0].None? then Err(ValueError)
    else
      var rest := Collect(values[1..]);
      if rest.Err? then rest else Ok([values[0].value] + rest.value)
  }

  /** A comprehension of conversions fails, with a ValueError, exactly when
      one conversion fails, and otherwise gives every converted value in
      order. */
  lemma {:induction false} CollectMeaning(values: seq<Option<int>>)
    ensures Collect(values).Ok? <==> forall i :: 0 <= i < |values| ==> values[i].Some?
    ensures Collect(values).Err? ==> Collect(values).error == ValueError
    ensures Collect(values).Ok? ==>
      |Collect(values).value| == |values| && forall i :: 0 <= i < |values| ==> values[i] == Some(Collect(values).value[i])
  {
    if values != [] {
      CollectMeaning(values[1..]);
      assert forall i :: 0 < i < |values| ==> values[i] == values[1..][i - 1];
    }
  }

  /** Conversions that all succeed give exactly their values. */
  lemma {:induction false} CollectAll(values: seq<Option<int>>, ints: seq<int>)
    requires |values| == |ints| && forall i :: 0 <= i < |values| ==> values[i] == Some(ints[i])
    ensures Collect(values) == Ok(ints)
  {
    if values != [] {
      CollectAll(values[1..], ints[1..]);
      assert ints == [ints[0]] + ints[1..];
    }
  }

  /** The list parser's conversion fails exactly when a field is not an
      integer, and otherwise gives one integer per field, in order. */
  lemma IntsMeaning(fields: seq<string>)
    ensures Collect(PlainInts(fields)).Ok? <==> forall i :: 0 <= i < |fields| ==> ParseInt(fields[i]).Some?
    ensures Collect(PlainInts(fields)).Err? ==> Collect(PlainInts(fields)).error == ValueError
    ensures Collect(PlainInts(fields)).Ok? ==>
      var r := Collect(PlainInts(fields)).value;
      |r| == |fields| && forall i :: 0 <= i < |fields| ==> ParseInt(fields[i]) == Some(r[i])
  {
    var values := PlainInts(fields);
    CollectMeaning(values);
    assert forall i :: 0 <= i < |fields| ==> values[i] == ParseInt(fields[i]);
  }

  /** Converted values that are the given bit numbers sum to `SumPow2`. */
  lemma {:induction false} ShiftsOf(values: seq<Option<int>>, bits: seq<nat>)
    requires |values| == |bits|
    requires forall i :: 0 <= i < |values| ==> values[i] == Some(bits[i])
    ensures Shifts(values) == Ok(SumPow2(bits))
  {
    if values != [] {
      assert forall i :: 0 <= i < |values| - 1 ==> values[1..][i] == values[i + 1];
      ShiftsOf(values[1..], bits[1..]);
    }
  }

  /** The bit-list parser: `[i,j,...]` to the SUM of `2^i` over the listed
      bit numbers (a repeated bit counts twice). */
  function ParseBitlist(s: string): (r: Result<nat>)
    ensures !Bracketed(s) <==> r == Err(AssertionError)
    ensures Bracketed(s) && r.Err? ==> r.error == ValueError
  {
    if !Bracketed(s) then Err(AssertionError) else Shifts(StrippedInts(Split(Inner(s), ',')))
  }

  /** The list parser: `[a,b,...]` to the integers, one per field, in
      order. */
  function ParseList(s: string): (r: Result<seq<int>>)
    ensures !Bracketed(s) <==> r == Err(AssertionError)
    ensures Bracketed(s) && r.Err? ==> r.error == ValueError
    ensures r.Ok? ==> |r.value| == Count(Inner(s), ',') + 1
  {
    if !Bracketed(s) then Err(AssertionError)
    else
      var fields := Split(Inner(s), ',');
      SplitJoin(Inner(s), ',');
      CollectMeaning(PlainInts(fields));
      Collect(PlainInts(fields))
  }

  /** The dictionary parser has no body and returns nothing. */
  function ParseDict(s: string): (r: InfoValue)
    ensures r == NoneValue
  {
    NoneValue
  }

  /** A list written the way both parsers read it. */
  function FormatList(xs: seq<int>): string
    requires |xs| >= 1
  {
    "[" + Join(Decimals(xs), ',') + "]"
  }

  function Decimals(xs: seq<int>): (ds: seq<string>)
    ensures |ds| == |xs| && forall i :: 0 <= i < |xs| ==> ds[i] == Decimal(xs[i])
  {
    if xs == [] then [] else [Decimal(xs[0])] + Decimals(xs[1..])
  }

  lemma InnerOfFormat(xs: seq<int>)
    requires |xs| >= 1
    ensures Bracketed(FormatList(xs)) && Inner(FormatList(xs)) == Join(Decimals(xs), ',')
    ensures Split(Inner(FormatList(xs)), ',') == Decimals(xs)
  {
    var ds := Decimals(xs);
    forall i | 0 <= i < |ds|
      ensures ',' !in ds[i]
    {
      DecimalPlain(xs[i]);
    }
    JoinSplit(ds, ',');
    var s := FormatList(xs);
    assert s[1..|s| - 1] == Join(ds, ',');
  }

  /** The list parser reads back every non-empty list of integers, one
      output per field, in their order. */
  lemma ParseListRoundTrip(xs: seq<int>)
    requires |xs| >= 1
    ensures ParseList(FormatList(xs)) == Ok(xs)
  {
    InnerOfFormat(xs);
    var values := PlainInts(Decimals(xs));
    forall i | 0 <= i < |xs|
      ensures values[i] == Some(xs[i])
    {
      DecimalRoundTrip(xs[i]);
    }
    CollectMeaning(values);
    assert Collect(values).value == xs;
  }

  /** The bit-list parser sums `2^i` over every listed bit number. */
  lemma ParseBitlistRoundTrip(bits: seq<nat>)
    requires |bits| >= 1
    ensures ParseBitlist(FormatList(bits)) == Ok(SumPow2(bits))
  {
    InnerOfFormat(bits);
    var values := StrippedInts(Decimals(bits));
    forall i | 0 <= i < |bits|
      ensures values[i] == Some(bits[i] as int)
    {
      DecimalPlain(bits[i]);
      DecimalRoundTrip(bits[i]);
    }
    ShiftsOf(values, bits);
  }

  /** `"[0,3]"` gives 9; `"[0,0]"` gives 2, a sum and not a bitwise or. */
  lemma BitlistExamples()
    ensures ParseBitlist("[0,3]") == Ok(9)
    ensures ParseBitlist("[0,0]") == Ok(2)
  {
    assert Decimal(0) == "0" && Decimal(3) == "3";
    assert Decimals([0, 3]) == ["0", "3"] && Decimals([0, 0]) == ["0", "0"];
    assert Join(["0", "3"], ',') == "0,3" && Join(["0", "0"], ',') == "0,0";
    assert FormatList([0, 3]) == "[0,3]" && FormatList([0, 0]) == "[0,0]";
    ParseBitlistRoundTrip([0, 3]);
    assert SumPow2([0, 3]) == 9;
    ParseBitlistRoundTrip([0, 0]);
    assert SumPow2([0, 0]) == 2;
  }

  /** Without the brackets the assertion fails; empty brackets hold one
      empty field, which is not an integer. */
  lemma ListErrors(s: string)
    ensures !Bracketed(s) ==> ParseList(s) == Err(AssertionError) && ParseBitlist(s) == Err(AssertionError)
    ensures ParseList("[]") == Err(ValueError) && ParseBitlist("[]") == Err(ValueError)
  {
    assert Inner("[]") == "";
    assert Split("", ',') == [""];
    assert Strip("") == "";
    assert ParseInt("") == None;
    assert PlainInts([""]) == [None];
    assert StrippedInts([""]) == [None];
  }

  // ------------------------------------------------------------ font info

  /** The type tag of a font info attribute. */
  datatype InfoType = StrType | IntType | FloatType | IntegerListType | DictListType | OtherType

  /** The value an info attribute is set to. The text of a float value is
      kept as given. */
  datatype InfoValue = NoneValue | StrValue(s: string) | IntValue(i: int) | FloatText(text: string) | IntListValue(ints: seq<int>)

  /** Whether the tool declares a command line option for an attribute of
      this type; only then does the options object have it. */
  predicate Registered(t: InfoType)
  {
    t in {StrType, IntType, FloatType, IntegerListType}
  }

  /** What the tool does with one info attribute, given the text of its
      option (None when the option was not given): `Ok(None)` leaves the
      attribute alone, `Ok(Some(v))` sets it to `v`. An attribute of a
      type without an option is never looked at. */
  function InfoSetting(key: string, t: InfoType, given: Option<string>): (r: Result<Option<InfoValue>>)
    ensures !(r.Ok? && r.value.None?) ==> Registered(t) && given.Some?
  {
    if !Registered(t) || given.None? then Ok(None) else ConvertInfo(key, t, given.value)
  }

  /** The value an option's text gives to an attribute of type `t`.
      Integer and float options are converted by the argument parser, so
      an empty or malformed value there is a usage error; for the others
      an empty text sets the attribute to None. */
  function ConvertInfo(key: string, t: InfoType, v: string): (r: Result<Option<InfoValue>>)
    ensures r.Err? ==>
      || ((t == IntType || t == FloatType) && r.error == UsageError)
      || (t == IntegerListType && (r.error == AssertionError || r.error == ValueError))
    ensures v == "" && (t == IntType || t == FloatType) ==> r == Err(UsageError)
    ensures r == Ok(None) <==> t == OtherType
  {
    match t
    case IntType =>
      var i := ParseInt(v);
      if i.None? then Err(UsageError) else Ok(Some(IntValue(i.value)))
    case FloatType =>
      if v == "" then Err(UsageError) else Ok(Some(FloatText(v)))
    case StrType =>
      if v == "" then Ok(Some(NoneValue)) else Ok(Some(StrValue(v)))
    case IntegerListType =>
      if v == "" then Ok(Some(NoneValue))
      else if key in BitlistKeys then
        var r := ParseBitlist(v);
        if r.Err? then Err(r.error) else Ok(Some(IntValue(r.value)))
      else
        var r := ParseList(v);
        if r.Err? then Err(r.error) else Ok(Some(IntListValue(r.value)))
    case DictListType =>
      if v == "" then Ok(Some(NoneValue)) else Ok(Some(ParseDict(v)))
    case OtherType => Ok(None)
  }

  /** Only the bit-list keys use the bit-list parser; the other integer
      list keys use the list parser; an empty text clears a string or
      integer list attribute. */
  lemma IntegerListDispatch(key: string, v: string)
    requires v != ""
    ensures key in BitlistKeys ==>
              InfoSetting(key, IntegerListType, Some(v)) ==
              (if ParseBitlist(v).Ok? then Ok(Some(IntValue(ParseBitlist(v).value))) else Err(ParseBitlist(v).error))
    ensures key !in BitlistKeys ==>
              InfoSetting(key, IntegerListType, Some(v)) ==
              (if ParseList(v).Ok? then Ok(Some(IntListValue(ParseList(v).value))) else Err(ParseList(v).error))
    ensures InfoSetting(key, StrType, Some("")) == Ok(Some(NoneValue))
    ensures InfoSetting(key, IntegerListType, Some("")) == Ok(Some(NoneValue))
  {
  }

  /** A dictionary-list attribute has no option, so it is never set: the
      branch that would set it to None is never reached. */
  lemma DictListNeverSet(key: string, given: Option<string>)
    ensures InfoSetting(key, DictListType, given) == Ok(None)
    ensures InfoSetting(key, OtherType, given) == Ok(None)
  {
  }

  /** The text of a key's option, None when it was not given. */
  function Given(given: map<string, string>, key: string): Option<string>
  {
    if key in given then Some(given[key]) else None
  }

  /** What the tool does with each attribute, in the order visited. */
  function Settings(attrs: seq<(string, InfoType)>, given: map<string, string>): seq<(string, Result<Option<InfoValue>>)>
  {
    seq(|attrs|, i requires 0 <= i < |attrs| => (attrs[i].0, InfoSetting(attrs[i].0, attrs[i].1, Given(given, attrs[i].0))))
  }

  /** The attributes after applying the settings in order; the first
      failure aborts. */
  function Apply(info: map<string, InfoValue>, settings: seq<(string, Result<Option<InfoValue>>)>): Result<map<string, InfoValue>>
  {
    if settings == [] then Ok(info)
    else
      var before := Apply(info, settings[..|settings| - 1]);
      var (key, s) := settings[|settings| - 1];
      if before.Err? then before
      else if s.Err? then Err(s.error)
      else if s.value.None? then before
      else Ok(before.value[key := s.value.value])
  }

  /** The font info after the info loop over `attrs`. */
  function InfoAfter(info: map<string, InfoValue>, attrs: seq<(string, InfoType)>, given: map<string, string>): Result<map<string, InfoValue>>
  {
    Apply(info, Settings(attrs, given))
  }

  /** Applying settings of distinct keys: on success every key holds what
      its own setting says, and every key without a setting is unchanged. */
  lemma {:induction false} ApplySets(info: map<string, InfoValue>, settings: seq<(string, Result<Option<InfoValue>>)>, k: string)
    requires forall i, j :: 0 <= i < j < |settings| ==> settings[i].0 != settings[j].0
    requires Apply(info, settings).Ok?
    ensures var r := Apply(info, settings).value;
      && (forall i :: 0 <= i < |settings| && settings[i].0 == k ==>
            var s := settings[i].1;
            s.Ok? && (s.value.Some? ==> k in r && r[k] == s.value.value)
                  && (s.value.None? ==> (k in r <==> k in info) && (k in info ==> r[k] == info[k])))
      && ((forall i :: 0 <= i < |settings| ==> settings[i].0 != k) ==> (k in r <==> k in info) && (k in info ==> r[k] == info[k]))
  {
    if settings != [] {
      ApplySets(info, settings[..|settings| - 1], k);
    }
  }

  /** On success each listed attribute holds what its own option says,
      and every attribute not listed is unchanged. */
  lemma InfoAfterSets(info: map<string, InfoValue>, attrs: seq<(string, InfoType)>, given: map<string, string>, k: string)
    requires forall i, j :: 0 <= i < j < |attrs| ==> attrs[i].0 != attrs[j].0
    requires InfoAfter(info, attrs, given).Ok?
    ensures var r := InfoAfter(info, attrs, given).value;
      && (forall i :: 0 <= i < |attrs| && attrs[i].0 == k ==>
            var s := InfoSetting(k, attrs[i].1, Given(given, k));
            s.Ok? && (s.value.Some? ==> k in r && r[k] == s.value.value)
                  && (s.value.None? ==> (k in r <==> k in info) && (k in info ==> r[k] == info[k])))
      && ((forall i :: 0 <= i < |attrs| ==> attrs[i].0 != k) ==> (k in r <==> k in info) && (k in info ==> r[k] == info[k]))
  {
    var settings := Settings(attrs, given);
    assert forall i :: 0 <= i < |attrs| ==> settings[i].0 == attrs[i].0;
    ApplySets(info, settings, k);
  }

  /** A failure stays a failure: later settings are never reached. */
  lemma {:induction false} ApplyErr(info: map<string, InfoValue>, settings: seq<(string, Result<Option<InfoValue>>)>, k: nat)
    requires k <= |settings| && Apply(info, settings[..k]).Err?
    ensures Apply(info, settings) == Apply(info, settings[..k])
    decreases |settings| - k
  {
    if k < |settings| {
      assert settings[..k + 1][..k] == settings[..k];
      ApplyErr(info, settings, k + 1);
    } else {
      assert settings[..k] == settings;
    }
  }

  // ----------------------------------------------------------- the font

  /** The part of a font the tool changes: its info attributes and, per
      glyph of the default layer, the glyph's unicodes. */
  class UfoFont {
    var info: map<string, InfoValue>
    var glyphs: map<string, seq<int>>

    constructor (info: map<string, InfoValue>, glyphs: map<string, seq<int>>)
      ensures this.info == info && this.glyphs == glyphs
    {
      this.info := info;
      this.glyphs := glyphs;
    }
  }

  /** Applying one more setting to a successful prefix. */
  lemma ApplyStep(info: map<string, InfoValue>, settings: seq<(string, Result<Option<InfoValue>>)>, k: nat)
    requires k < |settings| && Apply(info, settings[..k]).Ok?
    ensures var before, (key, s) := Apply(info, settings[..k]).value, settings[k];
      Apply(info, settings[..k + 1]) ==
        if s.Err? then Err(s.error) else if s.value.None? then Ok(before) else Ok(before[key := s.value.value])
  {
    assert settings[..k + 1][..k] == settings[..k];
  }

  /** Sets every info attribute that has an option, in the order of
      `attrs`. */
  method ApplyInfo(font: UfoFont, attrs: seq<(string, InfoType)>, given: map<string, string>) returns (outcome: Outcome)
    modifies font`info
    ensures var r := InfoAfter(old(font.info), attrs, given);
      && (outcome.Pass? <==> r.Ok?)
      && (r.Ok? ==> font.info == r.value)
      && (r.Err? ==> outcome == Fail(r.error))
  {
    ghost var info0 := font.info;
    ghost var settings := Settings(attrs, given);
    var k := 0;
    while k < |attrs|
      invariant 0 <= k <= |attrs|
      invariant Apply(info0, settings[..k]) == Ok(font.info)
    {
      var (key, t) := attrs[k];
      var setting := InfoSetting(key, t, if key in given then Some(given[key]) else None);
      assert settings[k] == (key, setting);
      ApplyStep(info0, settings, k);
      if setting.Err? {
        outcome := Fail(setting.error);
        ApplyErr(info0, settings, k + 1);
        return;
      }
      if setting.value.Some? {
        font.info := font.info[key := setting.value.value];
      }
      k := k + 1;
    }
    assert settings[..k] == settings;
    outcome := Pass;
  }

  // ----------------------------------------------------------- glyph drop

  /** The names the drop option lists: comma-space normalised to comma,
      then split on commas. Nothing when the option is absent or empty. */
  function DropNames(arg: Option<string>): seq<string>
  {
    if arg.None? || arg.value == "" then [] else Split(ReplaceCommaSpace(arg.value), ',')
  }

  /** The drop option lists one name per comma, plus one. */
  lemma DropNamesCount(s: string)
    requires s != ""
    ensures |DropNames(Some(s))| == Count(s, ',') + 1
  {
    ReplaceKeepsCommas(s);
    SplitJoin(ReplaceCommaSpace(s), ',');
  }

  /** Deletes every listed glyph that the font has; listed names it does
      not have are ignored. */
  method DropGlyphs(font: UfoFont, arg: Option<string>)
    modifies font`glyphs
    ensures font.glyphs == old(font.glyphs) - (set n | n in DropNames(arg))
  {
    if arg.Some? && arg.value != "" {
      var names := Split(ReplaceCommaSpace(arg.value), ',');
      ghost var glyphs0 := font.glyphs;
      ghost var gone: set<string> := {};
      var i := 0;
      while i < |names|
        invariant 0 <= i <= |names|
        invariant forall n :: n in gone <==> n in names[..i]
        invariant font.glyphs == glyphs0 - gone
      {
        var name := names[i];
        assert names[..i + 1] == names[..i] + [name];
        if name in font.glyphs {
          font.glyphs := font.glyphs - {name};
        }
        gone := gone + {name};
        i := i + 1;
      }
      assert names[..i] == names;
      assert gone == set n | n in DropNames(arg);
    }
  }

  // -------------------------------------------------------- unicode values

  /** `int(c, 16)` for each field, in order. */
  function HexValues(fields: seq<string>): seq<Option<int>>
  {
    seq(|fields|, i requires 0 <= i < |fields| => ParseHex(fields[i]))
  }

  /** One `name:h1,h2` entry applied to the glyphs: the codes are parsed
      first, then the glyph is looked up. A malformed entry or code is a
      ValueError, an unknown glyph a KeyError. */
  function ApplyEntry(glyphs: map<string, seq<int>>, entry: string): (r: Result<map<string, seq<int>>>)
    ensures r.Err? ==> r.error == ValueError || r.error == KeyError
    ensures r.Ok? ==> EntryName(entry) in glyphs && r.value.Keys == glyphs.Keys
    ensures r.Ok? ==> forall n :: n in glyphs && n != EntryName(entry) ==> r.value[n] == glyphs[n]
  {
    var parts := Split(entry, ':');
    if |parts| != 2 then Err(ValueError)
    else
      var codes := Collect(HexValues(Split(parts[1], ',')));
      if codes.Err? then Err(ValueError)
      else if parts[0] !in glyphs then Err(KeyError)
      else Ok(glyphs[parts[0] := codes.value])
  }

  /** The glyphs after the first `|entries|` entries. */
  function UnicodesAfter(glyphs: map<string, seq<int>>, entries: seq<string>): Result<map<string, seq<int>>>
  {
    if entries == [] then Ok(glyphs)
    else
      var before := UnicodesAfter(glyphs, entries[..|entries| - 1]);
      if before.Err? then before else ApplyEntry(before.value, entries[|entries| - 1])
  }

  /** The entries of the unicode option, split on semicolons. */
  function UnicodeEntries(arg: Option<string>): seq<string>
  {
    if arg.None? || arg.value == "" then [] else Split(arg.value, ';')
  }

  /** An entry written as `name:` followed by the codes in lower-case hex,
      comma separated, sets exactly those codes, in that order, on a glyph
      the font has. */
  lemma {:induction false} EntryRoundTrip(glyphs: map<string, seq<int>>, name: string, codes: seq<nat>)
    requires name in glyphs && ':' !in name && |codes| >= 1
    ensures ApplyEntry(glyphs, name + ":" + Join(HexTexts(codes), ',')) == Ok(glyphs[name := codes])
  {
    var texts := HexTexts(codes);
    forall i | 0 <= i < |texts|
      ensures ',' !in texts[i] && ':' !in texts[i]
    {
      FormatPlain(codes[i], 16);
    }
    JoinSplit(texts, ',');
    HexesOfTexts(codes);
    var joined := Join(texts, ',');
    JoinColon(name, joined, texts);
  }

  lemma JoinColon(name: string, joined: string, texts: seq<string>)
    requires ':' !in name && |texts| >= 1 && joined == Join(texts, ',')
    requires forall i :: 0 <= i < |texts| ==> ':' !in texts[i]
    ensures Split(name + ":" + joined, ':') == [name, joined]
  {
    JoinWithout(texts, ',', ':');
    SplitNoSeparator(joined, ':');
    SplitPrefix(name, joined, ':');
    assert name + ":" + joined == name + [':'] + joined;
  }

  lemma {:induction false} JoinWithout(fields: seq<string>, sep: char, c: char)
    requires |fields| >= 1 && c != sep
    requires forall i :: 0 <= i < |fields| ==> c !in fields[i]
    ensures c !in Join(fields, sep)
  {
    if |fields| > 1 {
      JoinWithout(fields[1..], sep, c);
    }
  }

  function HexTexts(codes: seq<nat>): (ts: seq<string>)
    ensures |ts| == |codes| && forall i :: 0 <= i < |codes| ==> ts[i] == Format(codes[i], 16)
  {
    if codes == [] then [] else [Format(codes[0], 16)] + HexTexts(codes[1..])
  }

  lemma HexesOfTexts(codes: seq<nat>)
    ensures Collect(HexValues(HexTexts(codes))) == Ok(codes)
  {
    HexValuesOfTexts(codes);
    CollectAll(HexValues(HexTexts(codes)), codes);
  }

  lemma HexValuesOfTexts(codes: seq<nat>)
    ensures var values := HexValues(HexTexts(codes));
      |values| == |codes| && forall i :: 0 <= i < |codes| ==> values[i] == Some(codes[i] as int)
  {
    var values := HexValues(HexTexts(codes));
    forall i | 0 <= i < |codes|
      ensures values[i] == Some(codes[i] as int)
    {
      HexRoundTrip(codes[i]);
    }
  }

  /** The glyph name an entry starts with. */
  function EntryName(entry: string): string
  {
    Split(entry, ':')[0]
  }

  /** Some entry names `n`. */
  predicate Named(entries: seq<string>, n: string)
  {
    exists k :: 0 <= k < |entries| && EntryName(entries[k]) == n
  }

  /** Setting unicodes adds or removes no glyph, and changes no glyph that
      no entry names. */
  lemma {:induction false} UnicodesKeepOtherGlyphs(glyphs: map<string, seq<int>>, entries: seq<string>)
    ensures var r := UnicodesAfter(glyphs, entries);
      r.Ok? ==> r.value.Keys == glyphs.Keys && forall n :: n in glyphs && !Named(entries, n) ==> r.value[n] == glyphs[n]
  {
    if entries != [] {
      var init := entries[..|entries| - 1];
      var last := entries[|entries| - 1];
      UnicodesKeepOtherGlyphs(glyphs, init);
      assert forall n :: !Named(entries, n) ==> !Named(init, n) && EntryName(last) != n by {
        assert forall k :: 0 <= k < |init| ==> init[k] == entries[k];
      }
    }
  }


  /** Applies every entry of the unicode option in order. */
  method SetUnicodes(font: UfoFont, arg: Option<string>) returns (outcome: Outcome)
    modifies font`glyphs
    ensures var r := UnicodesAfter(old(font.glyphs), UnicodeEntries(arg));
      && (outcome.Pass? <==> r.Ok?)
      && (r.Ok? ==> font.glyphs == r.value)
      && (r.Err? ==> outcome == Fail(r.error))
  {
    outcome := Pass;
    if arg.None? || arg.value == "" {
      return;
    }
    var entries := Split(arg.value, ';');
    ghost var glyphs0 := font.glyphs;
    var k := 0;
    assert entries[..0] == [];
    while k < |entries|
      invariant 0 <= k <= |entries|
      invariant UnicodesAfter(glyphs0, entries[..k]) == Ok(font.glyphs)
    {
      var entry := entries[k];
      UnicodesStep(glyphs0, entries, k);
      var parts := Split(entry, ':');
      if |parts| != 2 {
        outcome := Fail(ValueError);
        UnicodesAfterErr(glyphs0, entries, k + 1);
        return;
      }
      var codes := Collect(HexValues(Split(parts[1], ',')));
      if codes.Err? {
        outcome := Fail(ValueError);
        UnicodesAfterErr(glyphs0, entries, k + 1);
        return;
      }
      if parts[0] !in font.glyphs {
        outcome := Fail(KeyError);
        UnicodesAfterErr(glyphs0, entries, k + 1);
        return;
      }
      assert ApplyEntry(font.glyphs, entry) == Ok(font.glyphs[parts[0] := codes.value]);
      font.glyphs := font.glyphs[parts[0] := codes.value];
      k := k + 1;
    }
    assert entries[..k] == entries;
  }

  lemma UnicodesStep(glyphs: map<string, seq<int>>, entries: seq<string>, k: nat)
    requires k < |entries|
    ensures var before := UnicodesAfter(glyphs, entries[..k]);
      before.Ok? ==> UnicodesAfter(glyphs, entries[..k + 1]) == ApplyEntry(before.value, entries[k])
  {
    assert entries[..k + 1][..k] == entries[..k];
  }

  lemma {:induction false} UnicodesAfterErr(glyphs: map<string, seq<int>>, entries: seq<string>, k: nat)
    requires k <= |entries| && UnicodesAfter(glyphs, entries[..k]).Err?
    ensures UnicodesAfter(glyphs, entries) == UnicodesAfter(glyphs, entries[..k])
    decreases |entries| - k
  {
    if k < |entries| {
      assert entries[..k + 1][..k] == entries[..k];
      UnicodesAfterErr(glyphs, entries, k + 1);
    } else {
      assert entries[..k] == entries;
    }
  }

  // ------------------------------------------------------------ one font

  /** The tool on one font: info attributes, then the glyph drop, then
      the unicodes; the first failure stops it. */
  method TweakFont(font: UfoFont, attrs: seq<(string, InfoType)>, given: map<string, string>,
                   glyphDrop: Option<string>, glyphUnicode: Option<string>) returns (outcome: Outcome)
    modifies font
    ensures var info := InfoAfter(old(font.info), attrs, given);
      && (info.Err? ==> outcome == Fail(info.error))
      && (info.Ok? ==>
            && font.info == info.value
            && var dropped := old(font.glyphs) - (set n | n in DropNames(glyphDrop));
               var r := UnicodesAfter(dropped, UnicodeEntries(glyphUnicode));
               (r.Ok? ==> outcome == Pass && font.glyphs == r.value) && (r.Err? ==> outcome == Fail(r.error)))
  {
    outcome := ApplyInfo(font, attrs, given);
    if outcome.Fail? {
      return;
    }
    DropGlyphs(font, glyphDrop);
    outcome := SetUnicodes(font, glyphUnicode);
  }
}
