/** The directory name a plugin id gets (`plugin_config_path_component`): readable, safe on every
    file system, and different for different ids as long as it is not cut short. */
module PluginPaths {
  import opened Machine

  type Bytes = seq<Byte>

  const MAX_CHARS := 120
  const HASH_CHARS := 12
  const HEX := "0123456789ABCDEF"

  const RESERVED_STEMS: set<string> := {
    "CON", "PRN", "AUX", "NUL",
    "COM1", "COM2", "COM3", "COM4", "COM5", "COM6", "COM7", "COM8", "COM9",
    "LPT1", "LPT2", "LPT3", "LPT4", "LPT5", "LPT6", "LPT7", "LPT8", "LPT9"
  }

  predicate Lowercase(c: char) {
    'a' <= c <= 'z'
  }

  predicate Plain(b: Byte) {
    0x61 <= b <= 0x7a || 0x30 <= b <= 0x39 || b == 0x2e || b == 0x5f || b == 0x2d
  }

  function EscapeByte(b: Byte): string {
    if Plain(b) then [b as char] else ['%', HEX[b / 16], HEX[b % 16]]
  }

  function Escape(value: Bytes): string {
    if value == [] then "" else EscapeByte(value[0]) + Escape(value[1..])
  }

  function FixTrailingDot(c: string): string {
    if c != "" && c[|c| - 1] == '.' then c[..|c| - 1] + "%2E" else c
  }

  function Stem(c: string): string {
    if c == "" || c[0] == '.' then "" else [c[0]] + Stem(c[1..])
  }

  function Upper(c: string): string {
    if c == "" then ""
    else [if Lowercase(c[0]) then c[0] - 'a' + 'A' else c[0]] + Upper(c[1..])
  }

  predicate HasReservedStem(c: string) {
    Upper(Stem(c)) in RESERVED_STEMS
  }

  /** The component before it is cut to length. */
  function FullComponent(value: Bytes): string {
    var c := FixTrailingDot(Escape(value));
    if c == "" then "%plugin" else if HasReservedStem(c) then "%" + c else c
  }

  function Shorten(c: string, hash: string): string
    requires |hash| == HASH_CHARS
  {
    if |c| > MAX_CHARS then c[..MAX_CHARS - HASH_CHARS - 1] + "-" + hash else c
  }

  method EscapeBytes(value: Bytes) returns (component: string)
    ensures component == Escape(value)
  {
    component := "";
    for i := 0 to |value|
      invariant component == Escape(value[..i])
    {
      var b := value[i];
      EscapeSnoc(value, i);
      if Plain(b) {
        component := component + [b as char];
      } else {
        component := component + ['%', HEX[b / 16], HEX[b % 16]];
      }
    }
    assert value[..|value|] == value;
  }

  method SpellTrailingDot(c: string) returns (fixed: string)
    ensures fixed == FixTrailingDot(c)
  {
    fixed := c;
    if fixed != "" && fixed[|fixed| - 1] == '.' {
      fixed := fixed[..|fixed| - 1];
      fixed := fixed + "%2E";
    }
  }

  /** `hash` is the short digest of the id. */
  method PluginConfigPathComponent(value: Bytes, hash: string) returns (component: string)
    requires |hash| == HASH_CHARS
    ensures component == Shorten(FullComponent(value), hash)
  {
    component := EscapeBytes(value);
    component := SpellTrailingDot(component);
    if component == "" {
      return "%plugin";
    }
    if HasReservedStem(component) {
      component := "%" + component;
    }
    assert component == FullComponent(value);
    if |component| > MAX_CHARS {
      return component[..MAX_CHARS - |hash| - 1] + "-" + hash;
    }
  }

  lemma EscapeOne(b: Byte)
    ensures Escape([b]) == EscapeByte(b)
  {
    assert Escape([b][1..]) == "";
  }

  lemma EscapeSnoc(value: Bytes, i: nat)
    requires i < |value|
    ensures Escape(value[..i + 1]) == Escape(value[..i]) + EscapeByte(value[i])
  {
    EscapeAppend(value[..i], [value[i]]);
    EscapeOne(value[i]);
    assert value[..i] + [value[i]] == value[..i + 1];
  }

  lemma {:induction false} EscapeAppend(a: Bytes, b: Bytes)
    ensures Escape(a + b) == Escape(a) + Escape(b)
  {
    if a == [] {
      assert a + b == b;
    } else {
      assert (a + b)[1..] == a[1..] + b;
      EscapeAppend(a[1..], b);
    }
  }

  // ----- reading a component back, whatever case a file system shows it in -----

  predicate IsHex(c: char) {
    '0' <= c <= '9' || 'A' <= c <= 'F'
  }

  function HexValue(c: char): nat {
    if '0' <= c <= '9' then (c - '0') as nat else if 'A' <= c <= 'F' then (c - 'A') as nat + 10 else 0
  }

  /** The byte an unescaped character stands for, from its upper-case form. */
  function PlainValue(c: char): nat {
    if 'A' <= c <= 'Z' then (c - 'A') as nat + 0x61 else c as nat
  }

  function Unescape(upper: string): seq<nat> {
    if upper == "" then []
    else if upper[0] == '%' && |upper| >= 3 then
      [HexValue(upper[1]) * 16 + HexValue(upper[2])] + Unescape(upper[3..])
    else
      [PlainValue(upper[0])] + Unescape(upper[1..])
  }

  function DecodeUpper(upper: string): seq<nat> {
    if upper == "%PLUGIN" then []
    else if |upper| >= 3 && upper[0] == '%' && !(IsHex(upper[1]) && IsHex(upper[2])) then Unescape(upper[1..])
    else Unescape(upper)
  }

  /** The plugin id a full component was made from. */
  function Decode(c: string): seq<nat> {
    DecodeUpper(Upper(c))
  }

  lemma HexDigits(n: nat)
    requires n < 16
    ensures HexValue(HEX[n]) == n && !Lowercase(HEX[n]) && HEX[n] != '.' && IsHex(HEX[n])
  {
    assert HEX[n] == if n < 10 then '0' + n as char else 'A' + (n - 10) as char;
  }

  lemma {:induction false} UpperAppend(a: string, b: string)
    ensures Upper(a + b) == Upper(a) + Upper(b)
  {
    if a == "" {
      assert a + b == b;
    } else {
      assert (a + b)[1..] == a[1..] + b;
      UpperAppend(a[1..], b);
    }
  }

  lemma UpperOfPercent(c: string)
    requires |c| >= 3 && c[0] == '%' && !Lowercase(c[1]) && !Lowercase(c[2])
    ensures |Upper(c)| == |c| && Upper(c)[..3] == c[..3] && Upper(c)[3..] == Upper(c[3..])
  {
    UpperLength(c);
    assert Upper(c) == [c[0]] + Upper(c[1..]);
    assert Upper(c[1..]) == [c[1]] + Upper(c[1..][1..]);
    assert c[1..][1..] == c[2..] && c[2..][1..] == c[3..];
    assert Upper(c[2..]) == [c[2]] + Upper(c[3..]);
  }

  lemma UnescapePlain(c: char, tail: string)
    requires c != '%'
    ensures Unescape(Upper([c] + tail)) == [PlainValue(Upper([c])[0])] + Unescape(Upper(tail))
  {
    UpperAppend([c], tail);
    assert [c][1..] == "" && |Upper([c])| == 1 && Upper([c])[0] != '%';
    var upper := Upper([c] + tail);
    assert upper[0] == Upper([c])[0] && upper[1..] == Upper(tail);
  }

  lemma UnescapeEscape(first: char, second: char, tail: string)
    requires IsHex(first) && IsHex(second)
    ensures Unescape(Upper(['%', first, second] + tail))
         == [HexValue(first) * 16 + HexValue(second)] + Unescape(Upper(tail))
  {
    var all := ['%', first, second] + tail;
    assert all[0] == '%' && all[1] == first && all[2] == second && all[3..] == tail;
    UpperOfPercent(all);
    var upper := Upper(all);
    assert upper[0] == upper[..3][0] && upper[1] == upper[..3][1] && upper[2] == upper[..3][2];
  }

  lemma {:induction false} UnescapeOne(b: Byte, tail: string)
    ensures Unescape(Upper(EscapeByte(b) + tail)) == [b as nat] + Unescape(Upper(tail))
  {
    if Plain(b) {
      PlainUpper(b);
      UnescapePlain(b as char, tail);
    } else {
      HexDigits(b / 16);
      HexDigits(b % 16);
      UnescapeEscape(HEX[b / 16], HEX[b % 16], tail);
    }
  }

  lemma PlainUpper(b: Byte)
    requires Plain(b)
    ensures b as char != '%' && |Upper([b as char])| == 1 && PlainValue(Upper([b as char])[0]) == b as nat
  {
    assert [b as char][1..] == "";
  }

  lemma Associative(a: string, b: string, c: string)
    ensures a + b + c == a + (b + c)
  {}

  lemma PutFirstBack(value: Bytes, rest: seq<nat>)
    requires value != []
    ensures [value[0] as nat] + (value[1..] + rest) == value + rest
  {}

  lemma {:induction false} UnescapeAfterEscape(value: Bytes, rest: string)
    ensures Unescape(Upper(Escape(value) + rest)) == value + Unescape(Upper(rest))
  {
    if value == [] {
      assert Escape(value) + rest == rest;
      assert value + Unescape(Upper(rest)) == Unescape(Upper(rest));
    } else {
      Associative(EscapeByte(value[0]), Escape(value[1..]), rest);
      UnescapeOne(value[0], Escape(value[1..]) + rest);
      UnescapeAfterEscape(value[1..], rest);
      PutFirstBack(value, Unescape(Upper(rest)));
    }
  }

  lemma EscapeEndsInDot(value: Bytes)
    requires value != []
    ensures Escape(value) != ""
    ensures Escape(value)[|Escape(value)| - 1] == '.' <==> value[|value| - 1] == 0x2e
    ensures value[|value| - 1] == 0x2e ==>
              Escape(value)[..|Escape(value)| - 1] == Escape(value[..|value| - 1])
  {
    var last := value[|value| - 1];
    EscapeAppend(value[..|value| - 1], [last]);
    assert value[..|value| - 1] + [last] == value;
    assert Escape([last]) == EscapeByte(last) + Escape([last][1..]) == EscapeByte(last);
    if !Plain(last) {
      HexDigits(last % 16);
    }
  }

  lemma SpeltDotReadsBack()
    ensures Unescape(Upper("%2E")) == [0x2e]
  {
    var c := "%2E";
    UpperOfPercent(c);
    assert c[3..] == "" && Upper(c) == c && HexValue(c[1]) == 2 && HexValue(c[2]) == 14;
  }

  lemma SpeltDotAtEnd(front: Bytes)
    ensures Unescape(Upper(Escape(front) + "%2E")) == front + [0x2e]
  {
    UnescapeAfterEscape(front, "%2E");
    SpeltDotReadsBack();
  }

  lemma EscapeReadsBack(value: Bytes)
    ensures Unescape(Upper(Escape(value))) == value
  {
    UnescapeAfterEscape(value, "");
    assert Escape(value) + "" == Escape(value) && value + [] == value;
  }

  lemma DotFixAtDot(value: Bytes)
    requires value != [] && value[|value| - 1] == 0x2e
    ensures FixTrailingDot(Escape(value)) == Escape(value[..|value| - 1]) + "%2E"
  {
    EscapeEndsInDot(value);
  }

  lemma DotFixElsewhere(value: Bytes)
    requires value == [] || value[|value| - 1] != 0x2e
    ensures FixTrailingDot(Escape(value)) == Escape(value) && (Escape(value) == "" <==> value == [])
  {
    if value != [] {
      EscapeEndsInDot(value);
    }
  }

  /** The trailing dot is spelt out, and still reads back as a dot. */
  lemma DotFixReadsBack(value: Bytes)
    ensures Unescape(Upper(FixTrailingDot(Escape(value)))) == value
    ensures FixTrailingDot(Escape(value)) == "" <==> value == []
  {
    if value != [] && value[|value| - 1] == 0x2e {
      DotFixAtDot(value);
      SpeltDotAtEnd(value[..|value| - 1]);
      PutLastBack(value);
    } else {
      DotFixElsewhere(value);
      EscapeReadsBack(value);
    }
  }

  lemma PutLastBack(value: Bytes)
    requires value != []
    ensures value[..|value| - 1] + [value[|value| - 1] as nat] == value
  {}

  /** How a fixed escape can start: with a plain character, or with a percent sign and two digits. */
  lemma FixedStart(value: Bytes)
    requires value != []
    ensures var c := FixTrailingDot(Escape(value));
      c != "" && (c[0] == '%' ==> |c| >= 3 && IsHex(c[1]) && IsHex(c[2]))
      && (c[0] != '%' ==> Plain(value[0]) && c[0] == value[0] as char)
  {
    EscapeEndsInDot(value);
    if !Plain(value[0]) {
      HexDigits(value[0] / 16);
      HexDigits(value[0] % 16);
    } else if |value| == 1 && value[0] == 0x2e {
      assert Escape(value) == ".";
    }
  }

  lemma ReservedStartsWithLetter(c: string)
    requires HasReservedStem(c)
    ensures c != "" && c[0] in {'c', 'C', 'p', 'P', 'a', 'A', 'n', 'N', 'l', 'L'}
    ensures |Stem(c)| <= 4 && |Stem(c)| == |Upper(Stem(c))|
  {
    UpperLength(Stem(c));
    ReservedWord(Upper(Stem(c)));
    FirstOfUpper(Stem(c));
    assert Stem(c)[0] == c[0];
  }

  lemma ReservedWord(word: string)
    requires word in RESERVED_STEMS
    ensures 3 <= |word| <= 4 && word[0] in {'C', 'P', 'A', 'N', 'L'}
  {}

  lemma FirstOfUpper(c: string)
    requires c != "" && Upper(c) != "" && Upper(c)[0] in {'C', 'P', 'A', 'N', 'L'}
    ensures c[0] in {'c', 'C', 'p', 'P', 'a', 'A', 'n', 'N', 'l', 'L'}
  {}

  lemma {:induction false} UpperLength(c: string)
    ensures |Upper(c)| == |c|
  {
    if c != "" {
      UpperLength(c[1..]);
    }
  }

  /** The two letters a reserved stem starts with are not both digits of an escape. */
  lemma ReservedStartIsNoEscape(c: string)
    requires HasReservedStem(c)
    ensures |Upper(c)| == |c| >= 2 && !(IsHex(Upper(c)[0]) && IsHex(Upper(c)[1]))
  {
    ReservedPair(Upper(Stem(c)));
    UpperLength(Stem(c));
    StemIsPrefix(c);
    SameUpperStart(Stem(c), c);
  }

  lemma SameUpperStart(stem: string, c: string)
    requires stem <= c && |stem| >= 2
    ensures |Upper(c)| == |c| && |Upper(stem)| == |stem|
    ensures Upper(c)[0] == Upper(stem)[0] && Upper(c)[1] == Upper(stem)[1]
  {
    UpperLength(c);
    UpperLength(stem);
    UpperAppend(stem, c[|stem|..]);
    assert c == stem + c[|stem|..];
  }

  lemma ReservedPair(word: string)
    requires word in RESERVED_STEMS
    ensures |word| >= 3 && !(IsHex(word[0]) && IsHex(word[1]))
  {}

  lemma {:induction false} StemIsPrefix(c: string)
    ensures Stem(c) <= c
  {
    if c != "" && c[0] != '.' {
      StemIsPrefix(c[1..]);
      assert [c[0]] + c[1..] == c;
    }
  }

  /** Every full component reads back as the id it was made from, from its letters alone and not
      their case. */
  lemma FullComponentReadsBack(value: Bytes)
    ensures Decode(FullComponent(value)) == value
  {
    var c := FixTrailingDot(Escape(value));
    DotFixReadsBack(value);
    if value == [] {
      assert Upper("%plugin") == "%PLUGIN" by { UpperOfPlugin(); }
    } else if HasReservedStem(c) {
      PrefixedReadsBack(c);
    } else {
      FixedStart(value);
      UnprefixedReadsBack(c);
    }
  }

  lemma UpperOfPlugin()
    ensures Upper("%plugin") == "%PLUGIN"
  {
    UpperAppend("%plu", "gin");
    assert "%plu" + "gin" == "%plugin";
    assert Upper("gin") == "GIN" && Upper("%plu") == "%PLU";
    assert "%PLU" + "GIN" == "%PLUGIN";
  }

  lemma {:induction false} PrefixedReadsBack(c: string)
    requires HasReservedStem(c)
    ensures Decode("%" + c) == Unescape(Upper(c))
  {
    ReservedStartIsNoEscape(c);
    UpperAppend("%", c);
    assert Upper("%") == "%" by { assert Upper("%"[1..]) == ""; }
    var upper := Upper("%" + c);
    assert upper[1..] == Upper(c) && upper[1] == Upper(c)[0] && upper[2] == Upper(c)[1];
    if upper == "%PLUGIN" {
      assert Upper(c) == "PLUGIN";
      PluginIsNotReserved(c);
      assert false;
    }
  }

  lemma {:induction false} UnprefixedReadsBack(c: string)
    requires c != "" && (c[0] == '%' ==> |c| >= 3 && IsHex(c[1]) && IsHex(c[2]))
    ensures Decode(c) == Unescape(Upper(c))
  {
    var upper := Upper(c);
    UpperLength(c);
    if c[0] == '%' {
      UpperOfPercent(c);
      assert upper[1] == upper[..3][1] && upper[2] == upper[..3][2];
    } else {
      assert upper[0] != '%';
    }
  }

  lemma LongStemIsNotReserved(c: string)
    requires |Stem(c)| > 4
    ensures !HasReservedStem(c)
  {
    UpperLength(Stem(c));
    if HasReservedStem(c) {
      ReservedWord(Upper(Stem(c)));
    }
  }

  lemma PluginIsNotReserved(c: string)
    requires Upper(c) == "PLUGIN"
    ensures !HasReservedStem(c)
  {
    UpperLength(c);
    forall i | 0 <= i < |c| ensures c[i] != '.' {
      UpperAt(c, i);
    }
    StemLength(c);
    LongStemIsNotReserved(c);
  }

  lemma {:induction false} UpperAt(c: string, i: nat)
    requires i < |c|
    ensures |Upper(c)| == |c| && Upper(c)[i] == if Lowercase(c[i]) then c[i] - 'a' + 'A' else c[i]
  {
    UpperLength(c);
    if i > 0 {
      UpperAt(c[1..], i - 1);
    }
  }

  lemma {:induction false} StemLength(c: string)
    requires forall i :: 0 <= i < |c| ==> c[i] != '.'
    ensures Stem(c) == c
  {
    if c != "" {
      StemLength(c[1..]);
      assert [c[0]] + c[1..] == c;
    }
  }

  /** Two ids whose components are not cut short have different components, even where file names
      ignore case. */
  lemma ComponentsCollisionFree(v: Bytes, w: Bytes, hashV: string, hashW: string)
    requires |hashV| == |hashW| == HASH_CHARS
    requires |FullComponent(v)| <= MAX_CHARS && |FullComponent(w)| <= MAX_CHARS
    requires Upper(Shorten(FullComponent(v), hashV)) == Upper(Shorten(FullComponent(w), hashW))
    ensures v == w
  {
    FullComponentReadsBack(v);
    FullComponentReadsBack(w);
  }

  // ----- device names -----

  lemma {:induction false} StemBeforeDot(name: string, rest: string)
    requires '.' !in name
    ensures Stem(name) == name && Stem(name + "." + rest) == name
  {
    if name == "" {
      assert name + "." + rest == "." + rest;
    } else {
      StemBeforeDot(name[1..], rest);
      assert name + "." + rest == [name[0]] + (name[1..] + "." + rest);
      assert [name[0]] + name[1..] == name;
    }
  }

  predicate DeviceName(name: string) {
    || name in {"CON", "PRN", "AUX", "NUL"}
    || (|name| == 4 && (name[..3] == "COM" || name[..3] == "LPT") && '1' <= name[3] <= '9')
  }

  /** A text counts as reserved exactly if what stands before its first dot is a device name in any
      case, with or without something behind the dot. */
  lemma ReservedExactly(name: string, rest: string)
    requires '.' !in name
    ensures HasReservedStem(name) <==> DeviceName(Upper(name))
    ensures HasReservedStem(name + "." + rest) <==> DeviceName(Upper(name))
  {
    StemBeforeDot(name, rest);
    var upper := Upper(name);
    ReservedMembers(upper);
  }

  lemma ReservedMembers(name: string)
    ensures name in RESERVED_STEMS <==> DeviceName(name)
  {
    if |name| == 4 && (name[..3] == "COM" || name[..3] == "LPT") && '1' <= name[3] <= '9' {
      assert name == name[..3] + [name[3]];
      NumberedDevice(name[3]);
    }
  }

  lemma NumberedDevice(digit: char)
    requires '1' <= digit <= '9'
    ensures "COM" + [digit] in RESERVED_STEMS && "LPT" + [digit] in RESERVED_STEMS
  {
    assert "COM" + [digit] == ['C', 'O', 'M', digit] && "LPT" + [digit] == ['L', 'P', 'T', digit];
  }

  // ----- names that are left alone -----

  /** The id read as text, byte by byte. */
  function AsText(value: Bytes): string {
    seq(|value|, i requires 0 <= i < |value| => value[i] as char)
  }

  lemma {:induction false} PlainEscapesToText(value: Bytes)
    ensures |Escape(value)| >= |value|
    ensures Escape(value) == AsText(value) <==> forall i :: 0 <= i < |value| ==> Plain(value[i])
  {
    if value != [] {
      var rest := value[1..];
      PlainEscapesToText(rest);
      assert AsText(value) == [value[0] as char] + AsText(rest);
      assert forall i :: 0 <= i < |rest| ==> rest[i] == value[i + 1];
      if Plain(value[0]) {
        SameTail([value[0] as char], Escape(rest), AsText(rest));
      } else {
        assert |Escape(value)| == 3 + |Escape(rest)| && |AsText(value)| == |value|;
      }
    }
  }

  lemma SameTail(front: string, a: string, b: string)
    ensures front + a == front + b <==> a == b
  {
    if front + a == front + b {
      assert a == (front + a)[|front|..] && b == (front + b)[|front|..];
    }
  }

  /** An id is its own directory name exactly when it is not empty, has only lower-case letters, digits
      and the three marks, does not end in a dot, and has no device name before its first dot. */
  lemma NameIsIdExactly(value: Bytes)
    ensures FullComponent(value) == AsText(value)
       <==> && value != []
            && (forall i :: 0 <= i < |value| ==>
                  0x61 <= value[i] <= 0x7a || 0x30 <= value[i] <= 0x39 || value[i] in {0x2d, 0x2e, 0x5f})
            && value[|value| - 1] != 0x2e
            && !HasReservedStem(AsText(value))
  {
    PlainEscapesToText(value);
    var full, text := FullComponent(value), AsText(value);
    if value == [] {
      assert text == "";
    } else if value[|value| - 1] == 0x2e {
      FullComponentIsSafe(value);
      assert text[|text| - 1] == '.';
    } else {
      DotFixElsewhere(value);
      if HasReservedStem(Escape(value)) {
        assert |full| == 1 + |Escape(value)| > |text|;
      }
    }
  }

  // ----- names cut to length -----

  const CUT := MAX_CHARS - HASH_CHARS - 1

  /** The cut falls between escapes: neither of the two characters before it starts one. */
  predicate CutsBetweenEscapes(full: string)
    requires |full| > MAX_CHARS
  {
    full[CUT - 1] != '%' && full[CUT - 2] != '%'
  }

  /** Every percent sign from the second character on is followed by two hex digits. */
  predicate WholeEscapes(c: string, first: nat) {
    forall i :: first <= i < |c| && c[i] == '%' ==> i + 2 < |c| && IsHex(c[i + 1]) && IsHex(c[i + 2])
  }

  lemma WholeEscapesConcat(a: string, b: string)
    requires WholeEscapes(a, 0) && WholeEscapes(b, 0)
    ensures WholeEscapes(a + b, 0)
  {
    var c := a + b;
    forall i | 0 <= i < |c| && c[i] == '%' ensures i + 2 < |c| && IsHex(c[i + 1]) && IsHex(c[i + 2]) {
      if i < |a| {
        assert a[i] == '%' && c[i + 1] == a[i + 1] && c[i + 2] == a[i + 2];
      } else {
        assert b[i - |a|] == '%' && c[i + 1] == b[i - |a| + 1] && c[i + 2] == b[i - |a| + 2];
      }
    }
  }

  lemma {:induction false} EscapesAreWhole(value: Bytes)
    ensures WholeEscapes(Escape(value), 0)
  {
    if value != [] {
      EscapesAreWhole(value[1..]);
      EscapeIsWhole(value[0]);
      WholeEscapesConcat(EscapeByte(value[0]), Escape(value[1..]));
    }
  }

  lemma EscapeIsWhole(b: Byte)
    ensures WholeEscapes(EscapeByte(b), 0)
  {
    if !Plain(b) {
      HexDigits(b / 16);
      HexDigits(b % 16);
    }
  }

  lemma SpeltDotIsWhole()
    ensures WholeEscapes("%2E", 0)
  {
    assert "%2E"[1] == '2' && "%2E"[2] == 'E';
  }

  lemma {:induction false} FixedIsWhole(value: Bytes)
    ensures WholeEscapes(FixTrailingDot(Escape(value)), 0)
  {
    if value != [] && value[|value| - 1] == 0x2e {
      DotFixAtDot(value);
      EscapesAreWhole(value[..|value| - 1]);
      SpeltDotIsWhole();
      WholeEscapesConcat(Escape(value[..|value| - 1]), "%2E");
    } else {
      DotFixElsewhere(value);
      EscapesAreWhole(value);
    }
  }

  lemma FullIsWhole(value: Bytes)
    ensures WholeEscapes(FullComponent(value), 1)
  {
    var c := FixTrailingDot(Escape(value));
    FixedIsWhole(value);
    if c != "" && HasReservedStem(c) {
      var full := "%" + c;
      forall i | 1 <= i < |full| && full[i] == '%' ensures i + 2 < |full| && IsHex(full[i + 1]) && IsHex(full[i + 2]) {
        assert c[i - 1] == '%' && full[i + 1] == c[i] && full[i + 2] == c[i + 1];
      }
    }
  }

  /** A name cut inside an escape is the full component of no id. */
  lemma SplitNameIsFree(full: string, hash: string, w: Bytes)
    requires |full| > MAX_CHARS && |hash| == HASH_CHARS && FullComponent(w) == Shorten(full, hash)
    ensures CutsBetweenEscapes(full)
  {
    var name := Shorten(full, hash);
    FullIsWhole(w);
    assert name[CUT] == '-' && name[CUT - 1] == full[CUT - 1] && name[CUT - 2] == full[CUT - 2];
  }

  /** A start of an escaped text that does not end inside an escape is an escaped text. */
  lemma {:induction false} EscapedStart(value: Bytes, n: nat) returns (u: Bytes)
    requires n <= |Escape(value)|
    requires (n >= 1 ==> Escape(value)[n - 1] != '%') && (n >= 2 ==> Escape(value)[n - 2] != '%')
    ensures Escape(u) == Escape(value)[..n]
  {
    u := [];
    if n > 0 {
      var first, rest := EscapeByte(value[0]), Escape(value[1..]);
      assert Escape(value) == first + rest;
      assert n >= |first|;
      var tail := EscapedStart(value[1..], n - |first|);
      u := [value[0]] + tail;
      assert u[1..] == tail && (first + rest)[..n] == first + rest[..n - |first|];
    }
  }

  predicate PlainDigest(digest: Bytes) {
    |digest| == HASH_CHARS && forall i :: 0 <= i < |digest| ==> Plain(digest[i]) && digest[i] != 0x2e
  }

  lemma {:induction false} DigestEscapesToItself(digest: Bytes)
    requires forall i :: 0 <= i < |digest| ==> Plain(digest[i]) && digest[i] != 0x2e
    ensures |Escape(digest)| == |digest| && forall i :: 0 <= i < |digest| ==> Escape(digest)[i] != '.'
  {
    if digest != [] {
      DigestEscapesToItself(digest[1..]);
    }
  }

  /** The escaped start with the digest behind it. */
  lemma WithDigest(u: Bytes, digest: Bytes)
    requires PlainDigest(digest)
    ensures var w := u + ([0x2d] + digest);
      FixTrailingDot(Escape(w)) == Escape(u) + ("-" + Escape(digest)) && w != []
  {
    var tail: Bytes := [0x2d] + digest;
    EscapeAppend(u, tail);
    EscapeAppend([0x2d], digest);
    EscapeOne(0x2d);
    DotFixElsewhere(u + tail);
  }

  lemma {:induction false} StemOfStart(c: string, n: nat, tail: string)
    requires n <= |c| && |Stem(c)| < n
    ensures Stem(c[..n] + tail) == Stem(c)
  {
    var d := c[..n] + tail;
    if c[0] != '.' {
      StemOfStart(c[1..], n - 1, tail);
      assert d[1..] == c[1..][..n - 1] + tail;
    }
  }

  /** Escapes are cut the same in the fixed text: only its very end is spelt differently. */
  lemma FixedStartIsEscaped(value: Bytes, n: nat)
    requires n + 3 <= |FixTrailingDot(Escape(value))|
    ensures n <= |Escape(value)| && FixTrailingDot(Escape(value))[..n] == Escape(value)[..n]
  {}

  lemma CutAfterPrefix(c: string, n: nat)
    requires 0 < n <= |c| + 1
    ensures ("%" + c)[..n] == "%" + c[..n - 1]
  {}

  /** A name cut between escapes is the full component of another id. */
  lemma CutNameIsShared(v: Bytes, digest: Bytes, hash: string) returns (w: Bytes)
    requires |FullComponent(v)| > MAX_CHARS && CutsBetweenEscapes(FullComponent(v))
    requires PlainDigest(digest) && hash == Escape(digest)
    ensures w != v && |hash| == HASH_CHARS && |FullComponent(w)| <= MAX_CHARS
    ensures FullComponent(w) == Shorten(FullComponent(v), hash)
  {
    DigestEscapesToItself(digest);
    var c, full := FixTrailingDot(Escape(v)), FullComponent(v);
    var prefixed := HasReservedStem(c);
    var n := if prefixed then CUT - 1 else CUT;
    assert full == if prefixed then "%" + c else c;
    FixedStartIsEscaped(v, n);
    assert c[n - 1] == full[CUT - 1] && c[n - 2] == full[CUT - 2];
    assert Escape(v)[n - 1] == Escape(v)[..n][n - 1] && Escape(v)[n - 2] == Escape(v)[..n][n - 2];
    assert c[n - 1] == c[..n][n - 1] && c[n - 2] == c[..n][n - 2];
    var u := EscapedStart(v, n);
    w := u + ([0x2d] + digest);
    WithDigest(u, digest);
    if prefixed {
      PrefixedCut(c, n, hash);
    } else {
      UnprefixedCut(v, c, hash);
    }
  }

  lemma PrefixedCut(c: string, n: nat, hash: string)
    requires HasReservedStem(c) && n == CUT - 1 && |c| >= MAX_CHARS && |hash| == HASH_CHARS
    ensures HasReservedStem(c[..n] + ("-" + hash))
    ensures "%" + (c[..n] + ("-" + hash)) == Shorten("%" + c, hash)
  {
    ReservedStartsWithLetter(c);
    StemOfStart(c, n, "-" + hash);
    CutAfterPrefix(c, CUT);
  }

  lemma UnprefixedCut(v: Bytes, c: string, hash: string)
    requires c == FullComponent(v) && |c| > MAX_CHARS && |hash| == HASH_CHARS
    requires forall i :: 0 <= i < |hash| ==> hash[i] != '.'
    ensures c[..CUT] + ("-" + hash) == Shorten(c, hash) && !HasReservedStem(Shorten(c, hash))
  {
    FullComponentIsSafe(v);
    ShortenedIsNotReserved(c, hash);
  }

  /** An id too long for a name gets the name of an id that is not, if and only if the cut falls
      between escapes; no hash needs to collide. The digest is one of plain characters. */
  lemma CutNameIsTaken(v: Bytes, digest: Bytes, hash: string)
    requires |FullComponent(v)| > MAX_CHARS && PlainDigest(digest) && hash == Escape(digest)
    ensures |hash| == HASH_CHARS
    ensures (exists w: Bytes :: |FullComponent(w)| <= MAX_CHARS && FullComponent(w) == Shorten(FullComponent(v), hash))
       <==> CutsBetweenEscapes(FullComponent(v))
  {
    DigestEscapesToItself(digest);
    if w: Bytes :| |FullComponent(w)| <= MAX_CHARS && FullComponent(w) == Shorten(FullComponent(v), hash) {
      SplitNameIsFree(FullComponent(v), hash, w);
    }
    if CutsBetweenEscapes(FullComponent(v)) {
      var w := CutNameIsShared(v, digest, hash);
    }
  }

  /** Two names that are cut are equal exactly when they agree up to the cut and in their digests. */
  lemma CutNamesEqualExactly(a: string, b: string, hashA: string, hashB: string)
    requires |a| > MAX_CHARS && |b| > MAX_CHARS && |hashA| == |hashB| == 12
    ensures Shorten(a, hashA) == Shorten(b, hashB) <==> a[..107] == b[..107] && hashA == hashB
  {
    var x, y := Shorten(a, hashA), Shorten(b, hashB);
    assert x[..107] == a[..107] && x[108..] == hashA;
    assert y[..107] == b[..107] && y[108..] == hashB;
  }

  // ----- safety of the name -----

  predicate SafeChar(c: char) {
    Lowercase(c) || '0' <= c <= '9' || 'A' <= c <= 'F' || c == '.' || c == '_' || c == '-' || c == '%'
  }

  predicate SafeChars(c: string) {
    forall i :: 0 <= i < |c| ==> SafeChar(c[i])
  }

  lemma {:induction false} EscapeIsSafe(value: Bytes)
    ensures SafeChars(Escape(value))
  {
    if value != [] {
      EscapeIsSafe(value[1..]);
      EscapedByteIsSafe(value[0]);
    }
  }

  lemma EscapedByteIsSafe(b: Byte)
    ensures SafeChars(EscapeByte(b))
  {
    if !Plain(b) {
      HexDigits(b / 16);
      HexDigits(b % 16);
    }
  }

  lemma PercentStemIsNotReserved(c: string)
    requires c != "" && c[0] == '%'
    ensures !HasReservedStem(c)
  {
    if HasReservedStem(c) {
      ReservedStartsWithLetter(c);
    }
  }

  lemma {:induction false} LongStemOrSameStem(c: string, tail: string, n: nat)
    requires n <= |c| && forall i :: 0 <= i < |tail| ==> tail[i] != '.'
    ensures Stem(c[..n] + tail) == Stem(c) || Stem(c[..n] + tail) == c[..n] + tail
  {
    var d := c[..n] + tail;
    if n == 0 {
      assert d == tail;
      StemLength(tail);
    } else if c[0] != '.' {
      LongStemOrSameStem(c[1..], tail, n - 1);
      assert d[1..] == c[1..][..n - 1] + tail;
      assert [d[0]] + d[1..] == d;
    }
  }

  /** Whatever the id and however long, the name is not empty, fits, is made of safe characters,
      does not end in a dot and is no reserved device name. */
  lemma ComponentIsSafe(value: Bytes, hash: string)
    requires |hash| == HASH_CHARS && forall i :: 0 <= i < |hash| ==> SafeChar(hash[i]) && hash[i] != '.'
    ensures var name := Shorten(FullComponent(value), hash);
      && 1 <= |name| <= MAX_CHARS && SafeChars(name)
      && name[|name| - 1] != '.' && !HasReservedStem(name)
  {
    FullComponentIsSafe(value);
    ShortenedIsSafe(FullComponent(value), hash);
  }

  lemma ShortenedIsSafe(full: string, hash: string)
    requires |hash| == HASH_CHARS && forall i :: 0 <= i < |hash| ==> SafeChar(hash[i]) && hash[i] != '.'
    requires full != "" && SafeChars(full) && full[|full| - 1] != '.' && !HasReservedStem(full)
    ensures var name := Shorten(full, hash);
      && 1 <= |name| <= MAX_CHARS && SafeChars(name)
      && name[|name| - 1] != '.' && !HasReservedStem(name)
  {
    if |full| > MAX_CHARS {
      ShortenedIsNotReserved(full, hash);
    }
  }

  lemma FixedEscapeIsSafe(value: Bytes)
    ensures var c := FixTrailingDot(Escape(value));
      SafeChars(c) && (c != "" ==> c[|c| - 1] != '.')
  {
    EscapeIsSafe(value);
    DotFixIsSafe(Escape(value));
  }

  lemma DotFixIsSafe(c: string)
    requires SafeChars(c)
    ensures var fixed := FixTrailingDot(c);
      SafeChars(fixed) && (fixed != "" ==> fixed[|fixed| - 1] != '.')
  {}

  lemma FullComponentIsSafe(value: Bytes)
    ensures var full := FullComponent(value);
      full != "" && SafeChars(full) && full[|full| - 1] != '.' && !HasReservedStem(full)
  {
    var c := FixTrailingDot(Escape(value));
    FixedEscapeIsSafe(value);
    if c == "" || HasReservedStem(c) {
      PercentStemIsNotReserved(FullComponent(value));
    }
  }

  lemma ShortenedIsNotReserved(full: string, hash: string)
    requires !HasReservedStem(full) && |full| > MAX_CHARS && |hash| == HASH_CHARS
    requires forall i :: 0 <= i < |hash| ==> hash[i] != '.'
    ensures !HasReservedStem(Shorten(full, hash))
  {
    var name, n := Shorten(full, hash), MAX_CHARS - HASH_CHARS - 1;
    LongStemOrSameStem(full, "-" + hash, n);
    assert name == full[..n] + ("-" + hash);
    if Stem(name) == name {
      LongStemIsNotReserved(name);
    }
  }
}
