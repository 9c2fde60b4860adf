/** The string operations the command line tool relies on, with the
    behaviour of Python's `str.split`, `str.replace`, `str.strip` and
    `int(text)` / `int(text, 16)` spelled out. */
module Text {

  datatype Option<T> = None | Some(value: T)

  // ----------------------------------------------------------- splitting

  /** `s.split(sep)`: the fields between separators, one more than there
      are separators; the empty string gives one empty field. */
  function Split(s: string, sep: char): (fields: seq<string>)
    ensures |fields| >= 1
  {
    if s == [] then [""]
    else
      var rest := Split(s[1..], sep);
      if s[0] == sep then [""] + rest else [[s[0]] + rest[0]] + rest[1..]
  }

  /** `sep.join(fields)`. */
  function Join(fields: seq<string>, sep: char): string
    requires |fields| >= 1
  {
    if |fields| == 1 then fields[0] else fields[0] + [sep] + Join(fields[1..], sep)
  }

  /** How often `c` occurs in `s`. */
  function Count(s: string, c: char): nat
  {
    if s == [] then 0 else (if s[0] == c then 1 else 0) + Count(s[1..], c)
  }

  /** Splitting cuts at every separator and loses nothing: the fields
      hold no separator, there is one per separator plus one, and joining
      them gives the string back. */
  lemma {:induction false} SplitJoin(s: string, sep: char)
    ensures Join(Split(s, sep), sep) == s
    ensures |Split(s, sep)| == Count(s, sep) + 1
    ensures forall i :: 0 <= i < |Split(s, sep)| ==> sep !in Split(s, sep)[i]
  {
    if s != [] {
      SplitJoin(s[1..], sep);
      var rest := Split(s[1..], sep);
      if s[0] == sep {
        assert Split(s, sep) == [""] + rest;
        assert Split(s, sep)[1..] == rest;
      } else {
        var fields := Split(s, sep);
        assert fields[0] == [s[0]] + rest[0];
        if |rest| > 1 {
          assert fields[1..] == rest[1..];
          assert Join(rest, sep) == rest[0] + [sep] + Join(rest[1..], sep);
        }
        assert s == [s[0]] + s[1..];
        forall i | 0 <= i < |fields|
          ensures sep !in fields[i]
        {
          if i > 0 {
            assert fields[i] == rest[i];
          }
        }
      }
    }
  }

  /** The other direction: fields without separators come back from
      splitting their join. */
  lemma {:induction false} JoinSplit(fields: seq<string>, sep: char)
    requires |fields| >= 1
    requires forall i :: 0 <= i < |fields| ==> sep !in fields[i]
    ensures Split(Join(fields, sep), sep) == fields
  {
    if |fields| == 1 {
      SplitNoSeparator(fields[0], sep);
    } else {
      JoinSplit(fields[1..], sep);
      SplitPrefix(fields[0], Join(fields[1..], sep), sep);
      assert fields == [fields[0]] + fields[1..];
    }
  }

  /** A string without the separator is a single field. */
  lemma {:induction false} SplitNoSeparator(s: string, sep: char)
    requires sep !in s
    ensures Split(s, sep) == [s]
  {
    if s != [] {
      assert sep !in s[1..] by {
        assert forall c :: c in s[1..] ==> c in s;
      }
      SplitNoSeparator(s[1..], sep);
      assert s == [s[0]] + s[1..];
    }
  }

  /** Splitting `head + sep + tail`, where `head` has no separator. */
  lemma {:induction false} SplitPrefix(head: string, tail: string, sep: char)
    requires sep !in head
    ensures Split(head + [sep] + tail, sep) == [head] + Split(tail, sep)
  {
    if head == [] {
      assert [] + [sep] + tail == [sep] + tail;
      assert ([sep] + tail)[1..] == tail;
    } else {
      var s := head + [sep] + tail;
      assert s[0] == head[0] && s[1..] == head[1..] + [sep] + tail;
      assert sep !in head[1..] by {
        assert forall c :: c in head[1..] ==> c in head;
      }
      SplitPrefix(head[1..], tail, sep);
      assert head == [head[0]] + head[1..];
    }
  }

  // ----------------------------------------------------------- replacing

  /** `s.replace(", ", ",")`: every comma-space, scanning left to right
      without overlap, becomes a comma. */
  function ReplaceCommaSpace(s: string): (r: string)
    ensures |r| <= |s|
  {
    if |s| >= 2 && s[0] == ',' && s[1] == ' ' then "," + ReplaceCommaSpace(s[2..])
    else if s == [] then []
    else [s[0]] + ReplaceCommaSpace(s[1..])
  }

  /** The replacement keeps every comma, so splitting on commas afterwards
      gives as many names as there were commas plus one. */
  lemma {:induction false} ReplaceKeepsCommas(s: string)
    ensures Count(ReplaceCommaSpace(s), ',') == Count(s, ',')
  {
    if |s| >= 2 && s[0] == ',' && s[1] == ' ' {
      ReplaceKeepsCommas(s[2..]);
      assert s[1..][1..] == s[2..];
      var r := ReplaceCommaSpace(s);
      assert r[1..] == ReplaceCommaSpace(s[2..]);
    } else if s != [] {
      ReplaceKeepsCommas(s[1..]);
      var r := ReplaceCommaSpace(s);
      assert r[1..] == ReplaceCommaSpace(s[1..]);
    }
  }

  /** A field with one leading space taken off, if it has one. */
  function DropLeadingSpace(f: string): (r: string)
    ensures f != [] && f[0] == ' ' ==> f == " " + r
    ensures !(f != [] && f[0] == ' ') ==> r == f
  {
    if f != [] && f[0] == ' ' then f[1..] else f
  }

  /** `names` are `fields` with the first one as it was and every later
      one without its leading space. */
  predicate SpacesDropped(fields: seq<string>, names: seq<string>)
  {
    && |fields| >= 1 && |names| == |fields| && names[0] == fields[0]
    && forall i :: 1 <= i < |fields| ==> names[i] == DropLeadingSpace(fields[i])
  }

  /** What the replacement does to the comma-separated names: the first
      name is as before, and every later one loses the single space that
      followed its comma, if there was one. */
  lemma {:induction false} ReplaceFields(s: string)
    ensures SpacesDropped(Split(s, ','), Split(ReplaceCommaSpace(s), ','))
    decreases |s|
  {
    if s != [] {
      if |s| >= 2 && s[0] == ',' && s[1] == ' ' {
        var t := s[2..];
        var u := ReplaceCommaSpace(t);
        ReplaceFields(t);
        assert s == [','] + ([' '] + t) && ReplaceCommaSpace(s) == [','] + u;
        SplitCons(',', u);
        SplitCons(' ', t);
        SplitCons(',', [' '] + t);
        DroppedAfterCommaSpace(Split(t, ','), Split(u, ','));
      } else {
        var t := s[1..];
        var u := ReplaceCommaSpace(t);
        ReplaceFields(t);
        assert s == [s[0]] + t && ReplaceCommaSpace(s) == [s[0]] + u;
        SplitCons(s[0], u);
        SplitCons(s[0], t);
        if s[0] == ',' {
          assert t == [] || t[0] != ' ';
          FirstFieldUnspaced(t);
          DroppedAfterComma(Split(t, ','), Split(u, ','));
        } else {
          DroppedAfterOther(s[0], Split(t, ','), Split(u, ','));
        }
      }
    }
  }

  /** The first field of a string that does not start with a space does
      not start with one either. */
  lemma FirstFieldUnspaced(t: string)
    requires t == [] || t[0] != ' '
    ensures DropLeadingSpace(Split(t, ',')[0]) == Split(t, ',')[0]
  {
    if t != [] && t[0] != ',' {
      assert Split(t, ',')[0] == [t[0]] + Split(t[1..], ',')[0];
    }
  }

  /** Splitting a string with one more character in front. */
  lemma SplitCons(c: char, t: string)
    ensures Split([c] + t, ',') ==
      if c == ',' then [""] + Split(t, ',') else [[c] + Split(t, ',')[0]] + Split(t, ',')[1..]
  {
    assert ([c] + t)[1..] == t;
  }

  lemma DroppedAfterCommaSpace(fields: seq<string>, names: seq<string>)
    requires SpacesDropped(fields, names)
    ensures SpacesDropped([""] + ([[' '] + fields[0]] + fields[1..]), [""] + names)
  {
    var f, n := [""] + ([[' '] + fields[0]] + fields[1..]), [""] + names;
    assert ([' '] + fields[0])[1..] == fields[0];
    forall i | 1 <= i < |f|
      ensures n[i] == DropLeadingSpace(f[i])
    {
      if i >= 2 {
        assert f[i] == fields[i - 1] && n[i] == names[i - 1];
      }
    }
  }

  lemma DroppedAfterComma(fields: seq<string>, names: seq<string>)
    requires SpacesDropped(fields, names)
    requires DropLeadingSpace(fields[0]) == fields[0]
    ensures SpacesDropped([""] + fields, [""] + names)
  {
    var f, n := [""] + fields, [""] + names;
    forall i | 1 <= i < |f|
      ensures n[i] == DropLeadingSpace(f[i])
    {
      assert f[i] == fields[i - 1] && n[i] == names[i - 1];
    }
  }

  lemma DroppedAfterOther(c: char, fields: seq<string>, names: seq<string>)
    requires SpacesDropped(fields, names)
    ensures SpacesDropped([[c] + fields[0]] + fields[1..], [[c] + names[0]] + names[1..])
  {
    var f, n := [[c] + fields[0]] + fields[1..], [[c] + names[0]] + names[1..];
    forall i | 1 <= i < |f|
      ensures n[i] == DropLeadingSpace(f[i])
    {
      assert f[i] == fields[i] && n[i] == names[i];
    }
  }

  // ----------------------------------------------------------- whitespace

  /** Python's whitespace: the characters `str.isspace` accepts. */
  predicate IsSpace(c: char)
  {
    || '\t' <= c <= '\r' || '\U{001C}' <= c <= ' '
    || c == '\U{0085}' || c == '\U{00A0}' || c == '\U{1680}'
    || '\U{2000}' <= c <= '\U{200A}' || c == '\U{2028}' || c == '\U{2029}'
    || c == '\U{202F}' || c == '\U{205F}' || c == '\U{3000}'
  }

  /** `s.strip()`: leading and trailing whitespace removed. */
  function Strip(s: string): (r: string)
    ensures r == [] || (!IsSpace(r[0]) && !IsSpace(r[|r| - 1]))
  {
    StripRight(StripLeft(s))
  }

  function StripLeft(s: string): (r: string)
    ensures r == [] || !IsSpace(r[0])
    ensures |r| <= |s| && r == s[|s| - |r|..]
    ensures Blank(s[..|s| - |r|])
  {
    if s != [] && IsSpace(s[0]) then StripLeft(s[1..]) else s
  }

  function StripRight(s: string): (r: string)
    ensures r == [] || !IsSpace(r[|r| - 1])
    ensures |r| <= |s| && r == s[..|r|]
    ensures Blank(s[|r|..])
    ensures s != [] && !IsSpace(s[0]) ==> r != [] && r[0] == s[0]
  {
    if s != [] && IsSpace(s[|s| - 1]) then StripRight(s[..|s| - 1]) else s
  }

  /** What `strip` removes is whitespace, and only from the two ends:
      together with the ends of the result not being whitespace, this
      determines the result. */
  lemma StripMeaning(s: string)
    ensures exists a, b :: s == a + Strip(s) + b && Blank(a) && Blank(b)
  {
    var l := StripLeft(s);
    var r := StripRight(l);
    var a, b := s[..|s| - |l|], l[|r|..];
    assert r == Strip(s);
    assert Blank(a) && Blank(b);
    Around(s, l, r);
  }

  /** Cutting a suffix `l` of `s`, and then a prefix `r` of `l`. */
  lemma Around(s: string, l: string, r: string)
    requires |l| <= |s| && l == s[|s| - |l|..]
    requires |r| <= |l| && r == l[..|r|]
    ensures s == s[..|s| - |l|] + r + l[|r|..]
  {
    assert s == s[..|s| - |l|] + l;
    assert l == r + l[|r|..];
  }

  /** Only whitespace. */
  predicate Blank(w: string)
  {
    forall i :: 0 <= i < |w| ==> IsSpace(w[i])
  }

  // ----------------------------------------------------------- integers

  /** The value of a digit in base 10 or 16 (either case for 16). */
  function DigitValue(c: char, base: nat): Option<nat>
  {
    if '0' <= c <= '9' && (c as int) - ('0' as int) < base then Some((c as int) - ('0' as int))
    else if base == 16 && 'a' <= c <= 'f' then Some((c as int) - ('a' as int) + 10)
    else if base == 16 && 'A' <= c <= 'F' then Some((c as int) - ('A' as int) + 10)
    else None
  }

  /** The value of a non-empty run of digits, most significant first. */
  function Digits(s: string, base: nat): Option<nat>
  {
    if s == [] then None
    else
      var d := DigitValue(s[|s| - 1], base);
      if d.None? then None
      else if |s| == 1 then d
      else
        var high := Digits(s[..|s| - 1], base);
        if high.None? then None else Some(high.value * base + d.value)
  }

  /** A sign, then the digits. */
  function Signed(s: string, base: nat): Option<int>
  {
    if s != [] && (s[0] == '-' || s[0] == '+') then
      var m := Digits(s[1..], base);
      if m.None? then None
      else
        var v: int := if s[0] == '-' then 0 - (m.value as int) else m.value as int;
        Some(v)
    else
      var m := Digits(s, base);
      if m.None? then None else Some(m.value)
  }

  lemma SignedUnsigned(s: string, base: nat, n: nat)
    requires s != [] && s[0] != '-' && s[0] != '+' && Digits(s, base) == Some(n)
    ensures Signed(s, base) == Some(n)
  {
  }

  /** `int(s)`: whitespace around an optionally signed run of decimal
      digits; anything else is a ValueError (None). */
  function ParseInt(s: string): (r: Option<int>)
    ensures Strip(s) == [] ==> r.None?
  {
    Signed(Strip(s), 10)
  }

  /** `int(s, 16)`: whitespace around an optional sign, then an optional
      `0x` or `0X` prefix, then a non-empty run of hex digits. A sign after
      the prefix is a ValueError (None). */
  function ParseHex(s: string): (r: Option<int>)
    ensures Strip(s) == [] ==> r.None?
  {
    HexNumber(Strip(s))
  }

  /** `ParseHex` on text without surrounding whitespace. */
  function HexNumber(t: string): Option<int>
  {
    var sign := if t != [] && (t[0] == '-' || t[0] == '+') then [t[0]] else [];
    var body := t[|sign|..];
    var digits := if |body| >= 2 && body[0] == '0' && (body[1] == 'x' || body[1] == 'X') then body[2..] else body;
    var m := Digits(digits, 16);
    if m.None? then None
    else
      var v: int := if sign == "-" then 0 - (m.value as int) else m.value as int;
      Some(v)
  }

  /** The sign goes before the prefix: `-0x1` is -1. */
  lemma HexSignBeforePrefix()
    ensures ParseHex("-0x1") == Some(-1)
  {
    var t := "-0x1";
    assert t[1..] == "0x1" && "0x1"[2..] == "1";
    assert Digits("1", 16) == Some(1);
    assert HexNumber(t) == Some(-1);
    StripUnspaced(t);
  }

  /** A sign after the prefix is no number: `0x-1` is a ValueError. */
  lemma HexSignAfterPrefix()
    ensures ParseHex("0x-1") == None
  {
    var t := "0x-1";
    assert t[2..] == "-1" && "-1"[..1] == "-";
    assert Digits("-1", 16) == None;
    assert HexNumber(t) == None;
    StripUnspaced(t);
  }

  // ----------------------------------------------------------- formatting

  /** The digit for a value below 16 (lower case). */
  function DigitChar(d: nat): char
    requires d < 16
  {
    if d < 10 then (('0' as int) + d) as char else (('a' as int) + d - 10) as char
  }

  /** `n` written in `base`, most significant digit first, without
      leading zeros. */
  function Format(n: nat, base: nat): (s: string)
    requires base == 10 || base == 16
    ensures |s| >= 1
    decreases n
  {
    if n < base then [DigitChar(n)] else Format(n / base, base) + [DigitChar(n % base)]
  }

  /** Decimal text of an integer, as `str(n)` writes it. */
  function Decimal(n: int): (s: string)
  {
    if n < 0 then "-" + Format(-n, 10) else Format(n, 10)
  }

  lemma DigitRoundTrip(d: nat, base: nat)
    requires (base == 10 || base == 16) && d < base
    ensures DigitValue(DigitChar(d), base) == Some(d)
  {
  }

  /** Reading back what `Format` writes gives the number. */
  lemma {:induction false} FormatDigits(n: nat, base: nat)
    requires base == 10 || base == 16
    ensures Digits(Format(n, base), base) == Some(n)
  {
    DigitRoundTrip(n % base, base);
    if n >= base {
      FormatDigits(n / base, base);
      var s := Format(n, base);
      assert s[..|s| - 1] == Format(n / base, base);
    }
  }

  /** `Format` writes only digits. */
  lemma FormatChars(n: nat, base: nat)
    requires base == 10 || base == 16
    ensures var s := Format(n, base); forall i :: 0 <= i < |s| ==> '0' <= s[i] <= '9' || 'a' <= s[i] <= 'f'
    decreases n
  {
    if n >= base {
      FormatChars(n / base, base);
    }
  }

  /** Every character `Format` writes is a digit. */
  lemma FormatPlain(n: nat, base: nat)
    requires base == 10 || base == 16
    ensures forall c :: c in Format(n, base) ==> '0' <= c <= '9' || 'a' <= c <= 'f'
  {
    FormatChars(n, base);
  }

  /** `str(n)` has no whitespace around it and no comma or colon in it. */
  lemma DecimalPlain(n: int)
    ensures Strip(Decimal(n)) == Decimal(n)
    ensures ',' !in Decimal(n) && ':' !in Decimal(n)
  {
    var m: nat := if n < 0 then -n else n;
    FormatPlain(m, 10);
    var s := Decimal(n);
    assert forall c :: c in s ==> c == '-' || '0' <= c <= '9' || 'a' <= c <= 'f' by {
      if n < 0 {
        assert s == "-" + Format(m, 10);
      }
    }
    assert s[0] in s && s[|s| - 1] in s;
    StripUnspaced(s);
  }

  /** `int(s.strip())` is `int(s)`: `int` strips whitespace itself. */
  lemma ParseIntStripped(s: string)
    ensures ParseInt(Strip(s)) == ParseInt(s)
  {
    var r := Strip(s);
    if r != [] {
      StripUnspaced(r);
    } else {
      assert Strip(r) == [];
    }
  }

  lemma StripUnspaced(s: string)
    requires s != [] && !IsSpace(s[0]) && !IsSpace(s[|s| - 1])
    ensures Strip(s) == s
  {
    assert StripLeft(s) == s;
  }

  /** `int(str(n)) == n` for every integer. */
  lemma DecimalRoundTrip(n: int)
    ensures ParseInt(Decimal(n)) == Some(n)
  {
    DecimalPlain(n);
    SignedDecimal(n);
  }

  /** The sign and digits of `str(n)` read back as `n`. */
  lemma SignedDecimal(n: int)
    ensures Signed(Decimal(n), 10) == Some(n)
  {
    var m: nat := if n < 0 then -n else n;
    var digits := Format(m, 10);
    FormatDigits(m, 10);
    var s := Decimal(n);
    if n < 0 {
      assert s == "-" + digits && s[1..] == digits;
    } else {
      FormatChars(m, 10);
      assert s == digits && s[0] != '-' && s[0] != '+';
      SignedUnsigned(s, 10, m);
    }
  }

  /** A plain run of hex digits (no sign, no prefix) is read as such. */
  lemma ParseHexPlain(s: string, n: nat)
    requires s != [] && forall i :: 0 <= i < |s| ==> '0' <= s[i] <= '9' || 'a' <= s[i] <= 'f'
    requires Digits(s, 16) == Some(n)
    ensures ParseHex(s) == Some(n)
  {
    assert HexNumber(s) == Some(n) by {
      assert s[0] != '-' && s[0] != '+' && s[0..] == s;
      assert |s| >= 2 ==> s[1] != 'x' && s[1] != 'X';
    }
    HexDigitUnspaced(s[0]);
    HexDigitUnspaced(s[|s| - 1]);
    StripUnspaced(s);
  }

  lemma HexDigitUnspaced(c: char)
    requires '0' <= c <= '9' || 'a' <= c <= 'f'
    ensures !IsSpace(c)
  {
  }

  /** `int(format(n, "x"), 16) == n` for every natural number. */
  lemma HexRoundTrip(n: nat)
    ensures ParseHex(Format(n, 16)) == Some(n)
  {
    FormatDigits(n, 16);
    FormatChars(n, 16);
    ParseHexPlain(Format(n, 16), n);
  }
}
