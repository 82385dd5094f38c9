/** nmea_scanf of ampm_gps.c: a small interpreter of formats over comma-separated sentences. */
module Nmea {
  // One item taken from a sentence: the letter of its specifier, and its text.
  datatype Token = Token(kind: char, text: string)

  // NMEA_TOKS_COMPARE, NMEA_TOKS_PERCENT and, with the width read so far, NMEA_TOKS_WIDTH
  datatype Mode = Compare | Percent | Width(width: nat)

  predicate IsDigit(c: char) { '0' <= c <= '9' }

  predicate IsChar(kind: char) { kind == 'c' || kind == 'C' }

  predicate Known(kind: char) { kind in "cCsSfgGeEdiuxXo" }

  // memchr: the place of c, or the length.
  function Find(s: string, c: char): (n: nat)
    ensures n <= |s|
    decreases |s|
  {
    if |s| == 0 || s[0] == c then 0 else 1 + Find(s[1..], c)
  }

  // The character behind the first one of a format.
  function Behind(fmt: string): char { if |fmt| > 1 then fmt[1] else '\0' }

  // The width a specifier comes to: a character without a width takes one, unless the field is empty.
  function EffectiveWidth(buff: string, fmt: string, width: nat): nat
    requires |buff| > 0 && |fmt| > 0
  {
    if width == 0 && IsChar(fmt[0]) && buff[0] != Behind(fmt) then 1 else width
  }

  // How far the item goes: by its width, or up to the character that follows in the format.
  function TokenLength(buff: string, fmt: string, width: nat): nat
    requires |buff| > 0 && |fmt| > 0
  {
    var w := EffectiveWidth(buff, fmt, width);
    if w > 0 then w else if Behind(fmt) == '\0' then |buff| else Find(buff, Behind(fmt))
  }

  // The items that scanning buff by fmt takes.
  function Scan(buff: string, fmt: string, mode: Mode): seq<Token>
    decreases |fmt|
  {
    if |fmt| == 0 || |buff| == 0 then []
    else if mode == Compare then
      if fmt[0] == '%' then Scan(buff, fmt[1..], Percent)
      else if buff[0] == fmt[0] then Scan(buff[1..], fmt[1..], Compare)
      else []
    else
      var w := if mode == Percent then 0 else mode.width;
      if IsDigit(fmt[0]) then Scan(buff, fmt[1..], Width(10 * w + (fmt[0] - '0') as nat))
      else
        var n := TokenLength(buff, fmt, w);
        if n > |buff| then []
        else if n > 0 && !Known(fmt[0]) then [Token(fmt[0], buff[..n])]
        else [Token(fmt[0], buff[..n])] + Scan(buff[n..], fmt[1..], Compare)
  }

  // What a token leaves in its target: an empty one leaves what was there.
  function Stored(t: Token, was: string): string {
    if |t.text| == 0 || !Known(t.kind) then was else if IsChar(t.kind) then t.text[..1] else t.text
  }

  // The targets once the first n tokens are stored.
  ghost predicate Filled(now: seq<string>, was: seq<string>, tokens: seq<Token>, n: nat)
    requires n <= |tokens|
  {
    |now| == |was| && forall i | 0 <= i < |now| :: now[i] == if i < n then Stored(tokens[i], was[i]) else was[i]
  }

  method Scanf(buff: string, format: string, targets: array<string>) returns (tokCount: nat)
    requires |Scan(buff, format, Compare)| <= targets.Length
    modifies targets
    ensures tokCount == |Scan(buff, format, Compare)|
    ensures forall i | tokCount <= i < targets.Length :: targets[i] == old(targets[i])
    ensures forall i | 0 <= i < tokCount ::
              var t := Scan(buff, format, Compare)[i];
              targets[i] == if t.text == "" || t.kind !in "cCsSfgGeEdiuxXo" then old(targets[i])
                            else if t.kind == 'c' || t.kind == 'C' then t.text[..1] else t.text
  {
    ghost var all, was := Scan(buff, format, Compare), targets[..];
    var b: nat, f: nat, mode := 0, 0, Compare;
    tokCount := 0;
    while f < |format| && b < |buff|
      invariant b <= |buff| && f <= |format| && tokCount <= |all|
      invariant all[tokCount..] == Scan(buff[b..], format[f..], mode)
      invariant Filled(targets[..], was, all, tokCount)
      decreases |format| - f
    {
      var go;
      go, b, mode, tokCount := Turn(buff, b, format, f, mode, targets, tokCount, all, was);
      if !go { return; }
      f := f + 1;
    }
  }

  // One turn of the loop.
  method Turn(buff: string, b: nat, format: string, f: nat, mode: Mode, targets: array<string>, tokCount: nat,
              ghost all: seq<Token>, ghost was: seq<string>)
    returns (go: bool, b': nat, mode': Mode, tokCount': nat)
    requires b < |buff| && f < |format| && tokCount <= |all| <= targets.Length
    requires all[tokCount..] == Scan(buff[b..], format[f..], mode) && Filled(targets[..], was, all, tokCount)
    modifies targets
    ensures tokCount' <= |all| && Filled(targets[..], was, all, tokCount')
    ensures if go then b' <= |buff| && all[tokCount'..] == Scan(buff[b'..], format[f + 1..], mode')
            else all[tokCount'..] == []
  {
    ScanTurn(buff, b, format, f, mode);
    hide Scan, Filled, TokenLength;
    b', mode', tokCount' := b, mode, tokCount;
    if mode == Compare {
      if format[f] == '%' {
        return true, b, Percent, tokCount;
      }
      return buff[b] == format[f], b + 1, Compare, tokCount;
    }
    var w := if mode == Percent then 0 else mode.width;
    if IsDigit(format[f]) {
      return true, b, Width(10 * w + (format[f] - '0') as nat), tokCount;
    }
    mode' := Compare;
    go, b', tokCount' := TakeAt(buff, b, format, f, w, targets, tokCount, all, was);
  }

  // A type character, for the octets from b on.
  method TakeAt(buff: string, b: nat, format: string, f: nat, width: nat, targets: array<string>, tokCount: nat,
                ghost all: seq<Token>, ghost was: seq<string>)
    returns (go: bool, b': nat, tokCount': nat)
    requires b < |buff| && f < |format| && tokCount <= |all| <= targets.Length && !IsDigit(format[f])
    requires all[tokCount..] == Scan(buff[b..], format[f..], Width(width)) && Filled(targets[..], was, all, tokCount)
    modifies targets
    ensures tokCount' <= |all| && Filled(targets[..], was, all, tokCount')
    ensures if go then b' <= |buff| && all[tokCount'..] == Scan(buff[b'..], format[f + 1..], Compare)
            else all[tokCount'..] == []
  {
    hide Scan, Filled, TokenLength;
    var n;
    go, n := Take(buff[b..], format[f..], width, targets, tokCount, all, was);
    SuffixOfSuffix(buff, b, n);
    SuffixOfSuffix(format, f, 1);
    if n > |buff| - b {
      return false, b, tokCount;
    }
    b', tokCount' := b + n, tokCount + 1;
  }

  lemma SuffixOfSuffix(s: string, b: nat, n: nat)
    requires b <= |s|
    ensures n <= |s| - b ==> s[b..][n..] == s[b + n..]
  {}

  // The turns of the loop that take no token.
  lemma ScanTurn(buff: string, b: nat, format: string, f: nat, mode: Mode)
    requires b < |buff| && f < |format|
    ensures format[f..][1..] == format[f + 1..]
    ensures mode == Compare && format[f] == '%' ==>
              Scan(buff[b..], format[f..], mode) == Scan(buff[b..], format[f + 1..], Percent)
    ensures mode == Compare && format[f] != '%' ==>
              Scan(buff[b..], format[f..], mode)
              == if buff[b] == format[f] then Scan(buff[b + 1..], format[f + 1..], Compare) else []
    ensures mode != Compare && IsDigit(format[f]) ==>
              Scan(buff[b..], format[f..], mode)
              == Scan(buff[b..], format[f + 1..],
                      Width(10 * (if mode == Percent then 0 else mode.width) + (format[f] - '0') as nat))
    ensures mode == Percent && !IsDigit(format[f]) ==>
              Scan(buff[b..], format[f..], mode) == Scan(buff[b..], format[f..], Width(0))
  {
    hide Scan;
    SuffixOfSuffix(format, f, 1);
    SuffixOfSuffix(buff, b, 1);
    ScanFirst(buff[b..], format[f..], mode);
  }

  lemma ScanFirst(buff: string, fmt: string, mode: Mode)
    requires |buff| > 0 && |fmt| > 0
    ensures mode == Compare && fmt[0] == '%' ==> Scan(buff, fmt, mode) == Scan(buff, fmt[1..], Percent)
    ensures mode == Compare && fmt[0] != '%' ==>
              Scan(buff, fmt, mode) == if buff[0] == fmt[0] then Scan(buff[1..], fmt[1..], Compare) else []
    ensures mode != Compare && IsDigit(fmt[0]) ==>
              Scan(buff, fmt, mode)
              == Scan(buff, fmt[1..], Width(10 * (if mode == Percent then 0 else mode.width) + (fmt[0] - '0') as nat))
    ensures mode == Percent && !IsDigit(fmt[0]) ==> Scan(buff, fmt, mode) == Scan(buff, fmt, Width(0))
  {}

  lemma ScanTake(buff: string, fmt: string, width: nat)
    requires |buff| > 0 && |fmt| > 0 && !IsDigit(fmt[0])
    ensures var n := TokenLength(buff, fmt, width);
            Scan(buff, fmt, Width(width))
            == if n > |buff| then []
               else [Token(fmt[0], buff[..n])]
                    + if n == 0 || Known(fmt[0]) then Scan(buff[n..], fmt[1..], Compare) else []
  {
    var n := TokenLength(buff, fmt, width);
    if n <= |buff| { assert [Token(fmt[0], buff[..n])] + [] == [Token(fmt[0], buff[..n])]; }
  }

  // The type character of a specifier: n octets go to the next target.
  method Take(buff: string, fmt: string, width: nat, targets: array<string>, tokCount: nat, ghost all: seq<Token>,
              ghost was: seq<string>)
    returns (ok: bool, n: nat)
    requires |buff| > 0 && |fmt| > 0 && tokCount <= |all| <= targets.Length && !IsDigit(fmt[0])
    requires all[tokCount..] == Scan(buff, fmt, Width(width)) && Filled(targets[..], was, all, tokCount)
    modifies targets
    ensures n == TokenLength(buff, fmt, width)
    ensures n > |buff| ==> all[tokCount..] == [] && Filled(targets[..], was, all, tokCount)
    ensures n <= |buff| ==>
              && tokCount < |all| && Filled(targets[..], was, all, tokCount + 1)
              && all[tokCount + 1..] == if ok then Scan(buff[n..], fmt[1..], Compare) else []
  {
    n := TokenLength(buff, fmt, width);
    ok := n == 0 || Known(fmt[0]);
    if n > |buff| {
      return;
    }
    ScanTake(buff, fmt, width);
    hide Scan;
    ghost var t, rest := Token(fmt[0], buff[..n]), if ok then Scan(buff[n..], fmt[1..], Compare) else [];
    assert all[tokCount..] == [t] + rest;
    assert all[tokCount] == t && all[tokCount + 1..] == rest;
    if n > 0 && Known(fmt[0]) {
      targets[tokCount] := if IsChar(fmt[0]) then buff[..1] else buff[..n];
    }
  }

  // Specifiers without a width.

  // A field fits its specifier if it does not contain the delimiter behind it, and holds one character if that is
  // asked for.
  predicate FitsKind(kind: char, field: string, end: char) {
    && kind in "cCsSfgGeEdiuxXo" && end !in field && end != '%' && end != '\0'
    && (kind == 'c' || kind == 'C' ==> |field| <= 1)
  }

  lemma {:induction false} FindIs(s: string, c: char, rest: string)
    requires c !in s
    ensures Find(s + [c] + rest, c) == |s|
    decreases |s|
  {
    if |s| == 0 {
    } else {
      FindIs(s[1..], c, rest);
      assert (s + [c] + rest)[1..] == s[1..] + [c] + rest;
    }
  }

  // One specifier takes one field, and the delimiter goes with it.
  lemma ScanField(kind: char, field: string, end: char, rest: string, fmt: string)
    requires FitsKind(kind, field, end)
    ensures Scan(field + [end] + rest, ['%', kind, end] + fmt, Compare)
            == [Token(kind, field)] + Scan(rest, fmt, Compare)
  {
    var buff, f := field + [end] + rest, ['%', kind, end] + fmt;
    var f1, f2 := f[1..], f[2..];
    assert f1 == [kind, end] + fmt && f1[1..] == f2 == [end] + fmt && f2[1..] == fmt;
    FindIs(field, end, rest);
    assert !IsDigit(kind);
    assert |field| > 0 ==> buff[0] == field[0] && field[0] in field;
    assert Behind(f1) == end && TokenLength(buff, f1, 0) == |field|;
    assert buff[..|field|] == field && buff[|field|..] == [end] + rest;
    assert ([end] + rest)[1..] == rest;
    assert Scan([end] + rest, f2, Compare) == Scan(rest, fmt, Compare);
    assert Scan(buff, f1, Percent) == [Token(kind, field)] + Scan([end] + rest, f2, Compare);
  }

  // A field that is too long for a single character, or has a specifier of another letter, ends the scan.
  lemma ScanStops(kind: char, field: string, end: char, rest: string, fmt: string)
    requires end !in field && end != '%' && end != '\0' && !IsDigit(kind)
    requires if kind == 'c' || kind == 'C' then |field| > 1 else kind !in "sSfgGeEdiuxXo" && |field| > 0
    ensures Scan(field + [end] + rest, ['%', kind, end] + fmt, Compare)
         == [Token(kind, if kind == 'c' || kind == 'C' then field[..1] else field)]
  {
    var buff, f, f1 := field + [end] + rest, ['%', kind, end] + fmt, [kind, end] + fmt;
    assert f[1..] == f1 && f1[1..] == [end] + fmt;
    FindIs(field, end, rest);
    assert buff[0] == field[0] && field[0] in field && buff[..|field|] == field && buff[..1] == field[..1];
    ScanFirst(buff, f, Compare);
    ScanFirst(buff, f1, Percent);
    ScanTake(buff, f1, 0);
    if kind == 'c' || kind == 'C' {
      assert buff[1..][0] == field[1] && field[1] in field;
      ScanFirst(buff[1..], f1[1..], Compare);
    }
    hide Scan;
  }

  // The last specifier takes what is left.
  lemma ScanLast(kind: char, text: string)
    requires kind in "cCsSfgGeEdiuxXo" && |text| > 0 && (kind == 'c' || kind == 'C' ==> |text| == 1)
    ensures Scan(text, ['%', kind], Compare) == [Token(kind, text)]
  {
    var f := ['%', kind];
    assert f[1..] == [kind] && [kind][1..] == [] && text[..|text|] == text && text[|text|..] == "";
    hide Scan;
    ScanFirst(text, f, Compare);
    ScanFirst(text, [kind], Percent);
    ScanTake(text, [kind], 0);
    ScanNothing("");
  }

  // Specifiers with a width.

  predicate Digits(s: string) { forall i | 0 <= i < |s| :: IsDigit(s[i]) }

  // The number that decimal digits stand for.
  function Value(digits: string): nat
    requires Digits(digits)
    decreases |digits|
  {
    if |digits| == 0 then 0
    else 10 * Value(digits[..|digits| - 1]) + (digits[|digits| - 1] - '0') as nat
  }

  lemma {:induction false} ScanDigits(buff: string, digits: string, more: string)
    requires Digits(digits) && |digits| > 0 && |buff| > 0 && |more| > 0
    ensures Scan(buff, digits + more, Percent) == Scan(buff, more, Width(Value(digits)))
    decreases |digits|
  {
    var n := |digits| - 1;
    var front, last := digits[..n], digits[n];
    if n == 0 {
      assert (digits + more)[1..] == more;
      assert Value(front) == 0;
    } else {
      ScanDigits(buff, front, [last] + more);
      assert front + ([last] + more) == digits + more;
      assert ([last] + more)[1..] == more;
    }
  }

  // A specifier with a width takes exactly so many characters, whatever they are, and ends the scan if there are fewer.
  lemma ScanWidth(kind: char, digits: string, buff: string, fmt: string)
    requires kind in "cCsSfgGeEdiuxXo" && Digits(digits) && Value(digits) > 0
    ensures var w := Value(digits);
            Scan(buff, ['%'] + digits + [kind] + fmt, Compare)
            == if |buff| < w then [] else [Token(kind, buff[..w])] + Scan(buff[w..], fmt, Compare)
  {
    hide Scan;
    var f, g := ['%'] + digits + [kind] + fmt, [kind] + fmt;
    if |buff| == 0 {
      ScanNothing(f);
    } else {
      AfterPercent(digits, kind, fmt);
      ScanFirst(buff, f, Compare);
      ScanDigits(buff, digits, g);
      ScanTake(buff, g, Value(digits));
    }
  }

  lemma ScanNothing(fmt: string)
    ensures Scan("", fmt, Compare) == []
  {}

  lemma AfterPercent(digits: string, kind: char, fmt: string)
    ensures (['%'] + digits + [kind] + fmt)[1..] == digits + ([kind] + fmt) && ([kind] + fmt)[1..] == fmt
    ensures (['%'] + digits + [kind] + fmt)[0] == '%' && ([kind] + fmt)[0] == kind
  {}

  // Formats and the texts they are for, in parts: a field with the delimiter behind it, a block of a given width, and
  // characters to be skipped.
  datatype Part =
    | Field(kind: char, text: string, end: char)
    | Block(kind: char, digits: string, text: string)
    | Literal(text: string)

  predicate Good(p: Part) {
    match p
    case Field(kind, text, end) => FitsKind(kind, text, end)
    case Block(kind, digits, text) => kind in "cCsSfgGeEdiuxXo" && Digits(digits) && Value(digits) == |text| > 0
    case Literal(text) => '%' !in text
  }

  function Form(p: Part): string {
    match p
    case Field(kind, text, end) => ['%', kind, end]
    case Block(kind, digits, text) => ['%'] + digits + [kind]
    case Literal(text) => text
  }

  function Text(p: Part): string {
    match p
    case Field(kind, text, end) => text + [end]
    case Block(kind, digits, text) => text
    case Literal(text) => text
  }

  function Item(p: Part): seq<Token> {
    match p
    case Field(kind, text, end) => [Token(kind, text)]
    case Block(kind, digits, text) => [Token(kind, text)]
    case Literal(text) => []
  }

  function Format(parts: seq<Part>): string {
    if |parts| == 0 then "" else Form(parts[0]) + Format(parts[1..])
  }

  function Sentence(parts: seq<Part>): string {
    if |parts| == 0 then "" else Text(parts[0]) + Sentence(parts[1..])
  }

  function Items(parts: seq<Part>): seq<Token> {
    if |parts| == 0 then [] else Item(parts[0]) + Items(parts[1..])
  }

  lemma ScanPart(p: Part, rest: string, fmt: string)
    requires Good(p)
    ensures Scan(Text(p) + rest, Form(p) + fmt, Compare) == Item(p) + Scan(rest, fmt, Compare)
  {
    match p
    case Field(kind, text, end) => ScanField(kind, text, end, rest, fmt);
    case Block(kind, digits, text) =>
      ScanWidth(kind, digits, text + rest, fmt);
      assert (text + rest)[..|text|] == text && (text + rest)[|text|..] == rest;
    case Literal(text) => ScanPrefix(text, rest, fmt);
  }

  // Scanning a text by the format made for its parts takes exactly its fields and blocks, and goes on behind it.
  lemma {:induction false} ScanSentence(parts: seq<Part>, rest: string, fmt: string)
    requires forall i | 0 <= i < |parts| :: Good(parts[i])
    ensures Scan(Sentence(parts) + rest, Format(parts) + fmt, Compare) == Items(parts) + Scan(rest, fmt, Compare)
    decreases |parts|
  {
    if |parts| == 0 {
      assert Sentence(parts) + rest == rest && Format(parts) + fmt == fmt;
    } else {
      hide Scan, Good, Text, Form, Item, Sentence, Format, Items;
      var p, more := parts[0], parts[1..];
      ScanSentence(more, rest, fmt);
      ScanPart(p, Sentence(more) + rest, Format(more) + fmt);
      FirstPart(parts, rest, fmt, Scan(rest, fmt, Compare));
    }
  }

  lemma FirstPart(parts: seq<Part>, rest: string, fmt: string, tokens: seq<Token>)
    requires |parts| > 0
    ensures Sentence(parts) + rest == Text(parts[0]) + (Sentence(parts[1..]) + rest)
    ensures Format(parts) + fmt == Form(parts[0]) + (Format(parts[1..]) + fmt)
    ensures Items(parts) + tokens == Item(parts[0]) + (Items(parts[1..]) + tokens)
  {
    hide Form, Text, Item;
    Associate(Text(parts[0]), Sentence(parts[1..]), rest);
    Associate(Form(parts[0]), Format(parts[1..]), fmt);
    Associate(Item(parts[0]), Items(parts[1..]), tokens);
  }

  lemma Associate<T>(a: seq<T>, b: seq<T>, c: seq<T>)
    ensures (a + b) + c == a + (b + c)
  {}

  // The time of a fix, and the date, as two digits each.
  lemma ScanClock(h: string, m: string, s: string, rest: string, fmt: string)
    requires |h| == |m| == |s| == 2
    ensures Scan(h + m + s + rest, "%2d%2d%2d" + fmt, Compare)
         == [Token('d', h), Token('d', m), Token('d', s)] + Scan(rest, fmt, Compare)
  {
    hide Scan;
    var f1, f2 := "%2d" + fmt, "%2d" + ("%2d" + fmt);
    ScanTwo(s, rest, fmt);
    ScanTwo(m, s + rest, f1);
    ScanTwo(h, m + (s + rest), f2);
    assert h + m + s + rest == h + (m + (s + rest)) && "%2d%2d%2d" + fmt == "%2d" + f2;
  }

  lemma ScanTwo(text: string, rest: string, fmt: string)
    requires |text| == 2
    ensures Scan(text + rest, "%2d" + fmt, Compare) == [Token('d', text)] + Scan(rest, fmt, Compare)
  {
    hide Scan;
    assert Value("2") == 2 && Digits("2");
    ScanPart(Block('d', "2", text), rest, fmt);
    assert ['%'] + "2" + ['d'] == "%2d";
  }

  // As many specifiers of two digits as there are fields of two characters take them all.

  function Pairs(fields: seq<string>): string {
    if |fields| == 0 then "" else fields[0] + Pairs(fields[1..])
  }

  function TwoDigits(n: nat): string {
    if n == 0 then "" else "%2d" + TwoDigits(n - 1)
  }

  lemma {:induction false} ScanPairs(fields: seq<string>, rest: string, fmt: string)
    requires forall i | 0 <= i < |fields| :: |fields[i]| == 2
    ensures var tokens := Scan(Pairs(fields) + rest, TwoDigits(|fields|) + fmt, Compare);
            && |fields| <= |tokens| && tokens[|fields|..] == Scan(rest, fmt, Compare)
            && forall i | 0 <= i < |fields| :: tokens[i] == Token('d', fields[i])
    decreases |fields|
  {
    hide Scan;
    if |fields| == 0 {
      assert Pairs(fields) + rest == rest && TwoDigits(0) + fmt == fmt;
    } else {
      var more := fields[1..];
      ScanPairs(more, rest, fmt);
      ScanTwo(fields[0], Pairs(more) + rest, TwoDigits(|more|) + fmt);
      Associate(fields[0], Pairs(more), rest);
      Associate("%2d", TwoDigits(|more|), fmt);
    }
  }

  // _nmea_parse_time, as far as the texts of hours, minutes, seconds and fractions.
  method ParseTime(buff: string, targets: array<string>) returns (ok: bool)
    requires targets.Length == 4
    modifies targets
    ensures ok <==> |buff| == 6 || (8 <= |buff| <= 10 && buff[6] == '.')
    ensures ok ==> targets[0] == buff[..2] && targets[1] == buff[2..4] && targets[2] == buff[4..6]
    ensures ok && |buff| > 6 ==> targets[3] == buff[7..]
  {
    hide Scan;
    if |buff| == 6 {
      ScanTime(buff, "");
      var n := Scanf(buff, "%2d%2d%2d", targets);
      return n == 3;
    }
    if 8 <= |buff| <= 10 {
      ScanTime(buff, ".%d");
      var n := Scanf(buff, "%2d%2d%2d.%d", targets);
      return n == 4;
    }
    return false;
  }

  lemma ScanTime(buff: string, fmt: string)
    requires (|buff| == 6 && fmt == "") || (|buff| > 7 && fmt == ".%d")
    ensures "%2d%2d%2d" + fmt == if fmt == "" then "%2d%2d%2d" else "%2d%2d%2d.%d"
    ensures Scan(buff, "%2d%2d%2d" + fmt, Compare)
         == [Token('d', buff[..2]), Token('d', buff[2..4]), Token('d', buff[4..6])]
            + if fmt != "" && buff[6] == '.' then [Token('d', buff[7..])] else []
  {
    var h, m, s, rest := buff[..2], buff[2..4], buff[4..6], buff[6..];
    assert buff == h + m + s + rest;
    ScanClock(h, m, s, rest, fmt);
    hide Scan;
    if fmt == "" {
      ScanEnd(rest);
    } else {
      assert fmt[1..] == "%d" && rest[1..] == buff[7..];
      ScanFirst(rest, fmt, Compare);
      ScanLast('d', buff[7..]);
    }
  }

  // Fields that are each followed by a comma, as all sentences have them, and the format for them.

  function Commas(fields: seq<string>): string {
    if |fields| == 0 then "" else fields[0] + [','] + Commas(fields[1..])
  }

  function Kinds(kinds: string): string {
    if |kinds| == 0 then "" else ['%', kinds[0], ','] + Kinds(kinds[1..])
  }

  function Tokens(kinds: string, fields: seq<string>): (tokens: seq<Token>)
    requires |kinds| == |fields|
    ensures |tokens| == |fields|
    ensures forall i | 0 <= i < |fields| :: tokens[i] == Token(kinds[i], fields[i])
    decreases |kinds|
  {
    if |kinds| == 0 then [] else [Token(kinds[0], fields[0])] + Tokens(kinds[1..], fields[1..])
  }

  predicate AllFit(kinds: string, fields: seq<string>) {
    |kinds| == |fields| && forall i | 0 <= i < |kinds| :: FitsKind(kinds[i], fields[i], ',')
  }

  lemma {:induction false} ScanCommas(kinds: string, fields: seq<string>, rest: string, fmt: string)
    requires AllFit(kinds, fields)
    ensures Scan(Commas(fields) + rest, Kinds(kinds) + fmt, Compare)
         == Tokens(kinds, fields) + Scan(rest, fmt, Compare)
    decreases |kinds|
  {
    if |kinds| == 0 {
      assert Commas(fields) + rest == rest && Kinds(kinds) + fmt == fmt;
    } else {
      hide Scan, FitsKind;
      ScanCommas(kinds[1..], fields[1..], rest, fmt);
      ScanField(kinds[0], fields[0], ',', Commas(fields[1..]) + rest, Kinds(kinds[1..]) + fmt);
      Associate(fields[0] + [','], Commas(fields[1..]), rest);
      Associate(['%', kinds[0], ','], Kinds(kinds[1..]), fmt);
      Associate([Token(kinds[0], fields[0])], Tokens(kinds[1..], fields[1..]), Scan(rest, fmt, Compare));
    }
  }

  // nmea_parse_GPRMC: position, speed and course, the date in two digits each, and three more fields. All fourteen
  // items are taken.
  lemma ScanRmc(fields: seq<string>, d: string, m: string, y: string, more: seq<string>, last: string, rest: string)
    requires AllFit("sCfCfCff", fields) && AllFit("fC", more) && FitsKind('C', last, '*') && |d| == |m| == |y| == 2
    ensures Scan(Commas(fields) + (d + m + y + ([','] + (Commas(more) + (last + ['*'] + rest)))),
                 "%s,%C,%f,%C,%f,%C,%f,%f,%2d%2d%2d,%f,%C,%C*", Compare)
         == Tokens("sCfCfCff", fields)
            + ([Token('d', d), Token('d', m), Token('d', y)] + (Tokens("fC", more) + [Token('C', last)]))
  {
    hide Scan, AllFit, FitsKind, Commas, Tokens;
    var end := last + ['*'] + rest;
    var after := [','] + (Commas(more) + end);
    ScanField('C', last, '*', rest, "");
    ScanEnd(rest);
    ScanCommas("fC", more, end, "%C*");
    ScanPrefix([','], Commas(more) + end, Kinds("fC") + "%C*");
    ScanClock(d, m, y, after, [','] + (Kinds("fC") + "%C*"));
    ScanCommas("sCfCfCff", fields, d + m + y + after, "%2d%2d%2d" + ([','] + (Kinds("fC") + "%C*")));
    RmcFormat();
  }

  lemma RmcFormat()
    ensures Kinds("sCfCfCff") + ("%2d%2d%2d" + ([','] + (Kinds("fC") + "%C*")))
         == "%s,%C,%f,%C,%f,%C,%f,%f,%2d%2d%2d,%f,%C,%C*"
    ensures ['%', 'C', '*'] + "" == "%C*"
  {
    RmcKinds();
    RmcEnd(Kinds("fC"), "%C*");
    RmcTail([','], Kinds("fC") + "%C*");
    RmcDate("%2d%2d%2d", [','] + (Kinds("fC") + "%C*"));
    RmcWhole(Kinds("sCfCfCff"), "%2d%2d%2d" + ([','] + (Kinds("fC") + "%C*")));
  }

  lemma RmcKinds()
    ensures Kinds("sCfCfCff") == "%s,%C,%f,%C,%f,%C,%f,%f," && Kinds("fC") == "%f,%C,"
  {
    PairKinds('s', 'C');
    PairKinds('f', 'C');
    PairKinds('f', 'f');
    hide Kinds;
    KindsJoin("fC", "ff");
    KindsJoin("fC", "fCff");
    KindsJoin("sC", "fCfCff");
    assert "fC" + "ff" == "fCff" && "fC" + "fCff" == "fCfCff" && "sC" + "fCfCff" == "sCfCfCff";
    RmcFront(Kinds("sC"), Kinds("fC"), Kinds("ff"));
  }

  lemma PairKinds(k: char, l: char)
    ensures Kinds([k, l]) == ['%', k, ',', '%', l, ',']
  {
    assert [k, l][1..] == [l] && [l][1..] == [];
    assert Kinds([]) == "";
    assert Kinds([l]) == ['%', l, ','] + "";
  }

  lemma {:induction false} KindsJoin(a: string, b: string)
    ensures Kinds(a + b) == Kinds(a) + Kinds(b)
    decreases |a|
  {
    if |a| == 0 {
      assert a + b == b;
    } else {
      KindsJoin(a[1..], b);
      assert (a + b)[1..] == a[1..] + b;
      Associate(['%', a[0], ','], Kinds(a[1..]), Kinds(b));
    }
  }

  lemma RmcFront(sc: string, fc: string, ff: string)
    requires sc == "%s,%C," && fc == "%f,%C," && ff == "%f,%f,"
    ensures sc + (fc + (fc + ff)) == "%s,%C,%f,%C,%f,%C,%f,%f,"
  {}

  lemma RmcEnd(kinds: string, last: string)
    requires kinds == "%f,%C," && last == "%C*"
    ensures kinds + last == "%f,%C,%C*"
  {}

  lemma RmcTail(comma: string, more: string)
    requires comma == [','] && more == "%f,%C,%C*"
    ensures comma + more == ",%f,%C,%C*"
  {}

  lemma RmcDate(date: string, tail: string)
    requires date == "%2d%2d%2d" && tail == ",%f,%C,%C*"
    ensures date + tail == "%2d%2d%2d,%f,%C,%C*"
  {}

  lemma RmcWhole(kinds: string, date: string)
    requires kinds == "%s,%C,%f,%C,%f,%C,%f,%f," && date == "%2d%2d%2d,%f,%C,%C*"
    ensures kinds + date == "%s,%C,%f,%C,%f,%C,%f,%f,%2d%2d%2d,%f,%C,%C*"
  {}

  lemma ScanEnd(rest: string)
    ensures Scan(rest, "", Compare) == []
  {}

  // Literal characters in front, the same in both, change nothing.
  lemma {:induction false} ScanPrefix(prefix: string, buff: string, fmt: string)
    requires '%' !in prefix
    ensures Scan(prefix + buff, prefix + fmt, Compare) == Scan(buff, fmt, Compare)
    decreases |prefix|
  {
    if |prefix| == 0 {
      assert prefix + buff == buff && prefix + fmt == fmt;
    } else {
      ScanPrefix(prefix[1..], buff, fmt);
      assert (prefix + buff)[1..] == prefix[1..] + buff && (prefix + fmt)[1..] == prefix[1..] + fmt;
    }
  }
}
