/**
  The output formats of the MQTT clients: the check made when the option is read
  (check_format) and the printer that walks the same string again (formatted_print).

  The reference is the grammar of the format: a string is a row of tokens.
 */
module MqttFormat {
  import opened Basics

  // --- the grammar ---

  /** What can end a directive. */
  const SPECIFIERS: set<char> := {
    '%', 'A', 'C', 'D', 'E', 'F', 'I', 'J', 'P', 'R', 'S', 'U', 'X', 'j', 'l', 'm', 'p', 'q', 'r', 't', 'x'
  }

  predicate IsSpecifier(c: char) {
    c in SPECIFIERS
  }

  /** What can follow a backslash, and the code of the character that the two stand for. */
  const ESCAPES: map<char, int> := map[
    '\\' := 92, '0' := 0, 'a' := 7, 'e' := 27, 'n' := 10, 'r' := 13, 't' := 9, 'v' := 11
  ]

  predicate IsEscape(c: char) {
    c in ESCAPES
  }

  /** The parts of a directive are kept as they are written; the precision with its point. */
  datatype Token =
    | Plain(c: char)
    | Time(c: char)
    | Escape(c: char)
    | Directive(flag: string, width: string, precision: string, spec: char)

  predicate IsDigit(c: char) {
    '0' <= c <= '9'
  }

  predicate AllDigits(s: string) {
    forall k | 0 <= k < |s| :: IsDigit(s[k])
  }

  predicate Valid(t: Token) {
    match t
    case Plain(c) => c != '%' && c != '@' && c != '\\'
    case Time(_) => true
    case Escape(c) => IsEscape(c)
    case Directive(flag, width, precision, spec) =>
      && (flag == "" || flag == "0" || flag == "-")
      && AllDigits(width) && (flag == "" && width != "" ==> width[0] != '0')
      && (precision == "" || (precision[0] == '.' && AllDigits(precision[1..])))
      && IsSpecifier(spec)
  }

  function Render(t: Token): (s: string)
    ensures |s| >= 1
  {
    match t
    case Plain(c) => [c]
    case Time(c) => ['@', c]
    case Escape(c) => ['\\', c]
    case Directive(flag, width, precision, spec) => "%" + flag + width + precision + [spec]
  }

  function RenderAll(ts: seq<Token>): string {
    if ts == [] then "" else Render(ts[0]) + RenderAll(ts[1..])
  }

  predicate AllValid(ts: seq<Token>) {
    forall k | 0 <= k < |ts| :: Valid(ts[k])
  }

  // --- reading a token ---

  function FlagEnd(s: string, i: nat): (j: nat)
    ensures i <= j && (i <= |s| ==> j <= |s|)
  {
    if i < |s| && (s[i] == '0' || s[i] == '-') then i + 1 else i
  }

  /** Where a run of digits ends. */
  function DigitsEnd(s: string, i: nat): (j: nat)
    ensures i <= j && (i <= |s| ==> j <= |s|)
    ensures forall k | i <= k < j :: k < |s| && IsDigit(s[k])
    ensures j < |s| ==> !IsDigit(s[j])
    decreases |s| - i
  {
    if i < |s| && IsDigit(s[i]) then DigitsEnd(s, i + 1) else i
  }

  function PrecisionEnd(s: string, i: nat): (j: nat)
    ensures i <= j && (i <= |s| ==> j <= |s|)
  {
    if i < |s| && s[i] == '.' then DigitsEnd(s, i + 1) else i
  }

  /** The directive whose percent sign is at i. */
  function DirectiveAt(s: string, i: nat): Option<Token>
    requires i < |s|
  {
    var a := FlagEnd(s, i + 1);
    var b := DigitsEnd(s, a);
    var c := PrecisionEnd(s, b);
    if c < |s| && IsSpecifier(s[c]) then Some(Directive(s[i + 1..a], s[a..b], s[b..c], s[c])) else None
  }

  function TokenAt(s: string, i: nat): Option<Token>
    requires i < |s|
  {
    if s[i] == '%' then DirectiveAt(s, i)
    else if s[i] == '@' then if i + 1 < |s| then Some(Time(s[i + 1])) else None
    else if s[i] == '\\' then if i + 1 < |s| && IsEscape(s[i + 1]) then Some(Escape(s[i + 1])) else None
    else Some(Plain(s[i]))
  }

  /** t is written at i. */
  predicate StandsAt(s: string, i: nat, t: Token) {
    i + |Render(t)| <= |s| && s[i..i + |Render(t)|] == Render(t)
  }

  lemma Seam(s: string, a: nat, b: nat, c: nat)
    requires a <= b <= c <= |s|
    ensures s[a..b] + s[b..c] == s[a..c]
  {
  }

  lemma FiveParts(s: string, i: nat, a: nat, b: nat, c: nat)
    requires i + 1 <= a <= b <= c < |s|
    ensures s[i..c + 1] == [s[i]] + s[i + 1..a] + s[a..b] + s[b..c] + [s[c]]
  {
    Seam(s, i, i + 1, a);
    Seam(s, i, a, b);
    Seam(s, i, b, c);
    Seam(s, i, c, c + 1);
    assert s[i..i + 1] == [s[i]] && s[c..c + 1] == [s[c]];
  }

  lemma DirectiveIsThere(s: string, i: nat)
    requires i < |s| && s[i] == '%' && DirectiveAt(s, i).Some?
    ensures Valid(DirectiveAt(s, i).value) && StandsAt(s, i, DirectiveAt(s, i).value)
  {
    hide DigitsEnd, FlagEnd, PrecisionEnd, Valid, IsSpecifier;
    var a := FlagEnd(s, i + 1);
    var b := DigitsEnd(s, a);
    FiveParts(s, i, a, b, PrecisionEnd(s, b));
    DirectiveIsValid(s, i);
  }

  lemma DirectiveIsValid(s: string, i: nat)
    requires i < |s| && DirectiveAt(s, i).Some?
    ensures Valid(DirectiveAt(s, i).value)
  {
    hide DigitsEnd;
    var a := FlagEnd(s, i + 1);
    var b := DigitsEnd(s, a);
    var c := PrecisionEnd(s, b);
    assert forall k | 0 <= k < b - a :: s[a..b][k] == s[a + k];
    if b < c {
      assert forall k | 0 <= k < c - b - 1 :: s[b..c][1..][k] == s[b + 1 + k];
    }
  }

  /** What is read is a token of the grammar, and it is written there. */
  lemma TokenIsThere(s: string, i: nat)
    requires i < |s| && TokenAt(s, i).Some?
    ensures Valid(TokenAt(s, i).value) && StandsAt(s, i, TokenAt(s, i).value)
  {
    hide DirectiveAt;
    if s[i] == '%' {
      hide StandsAt, Valid;
      DirectiveIsThere(s, i);
    }
  }

  lemma {:induction false} DigitsEndIs(s: string, i: nat, j: nat)
    requires i <= j <= |s| && (forall k | i <= k < j :: IsDigit(s[k])) && (j < |s| ==> !IsDigit(s[j]))
    ensures DigitsEnd(s, i) == j
    decreases j - i
  {
    if i < j {
      DigitsEndIs(s, i + 1, j);
    }
  }

  lemma NotAPart(c: char)
    requires IsSpecifier(c)
    ensures !IsDigit(c) && c != '.' && c != '-'
  {
  }

  lemma SliceOfSlice(s: string, i: nat, n: nat, a: nat, b: nat)
    requires a <= b <= n && i + n <= |s|
    ensures s[i..i + n][a..b] == s[i + a..i + b]
  {
    var t := s[i..i + n];
    assert forall k {:trigger t[a..b][k]} | 0 <= k < b - a :: t[a..b][k] == s[i + a..i + b][k];
  }

  /** The three boundaries inside a directive that is written at i. */
  lemma BoundariesOf(s: string, i: nat, t: Token)
    requires t.Directive? && Valid(t) && StandsAt(s, i, t)
    ensures var a, b := i + 1 + |t.flag|, i + 1 + |t.flag| + |t.width|;
            var c := b + |t.precision|;
            && c < |s| && s[i] == '%' && s[c] == t.spec
            && s[i + 1..a] == t.flag && s[a..b] == t.width && s[b..c] == t.precision
  {
    hide Valid;
    var r := Render(t);
    var a, b := 1 + |t.flag|, 1 + |t.flag| + |t.width|;
    var c := b + |t.precision|;
    RenderedParts(t);
    SliceOfSlice(s, i, |r|, 1, a);
    SliceOfSlice(s, i, |r|, a, b);
    SliceOfSlice(s, i, |r|, b, c);
    assert s[i] == s[i..i + |r|][0] && s[i + c] == s[i..i + |r|][c];
  }

  lemma RenderedParts(t: Token)
    requires t.Directive?
    ensures var r := Render(t);
            var a, b := 1 + |t.flag|, 1 + |t.flag| + |t.width|;
            var c := b + |t.precision|;
            && |r| == c + 1 && r[0] == '%' && r[c] == t.spec
            && r[1..a] == t.flag && r[a..b] == t.width && r[b..c] == t.precision
  {
  }

  /** A directive of the grammar is read as what it is. */
  lemma DirectiveIsRead(s: string, i: nat, t: Token)
    requires t.Directive? && Valid(t) && StandsAt(s, i, t)
    ensures s[i] == '%' && DirectiveAt(s, i) == Some(t)
  {
    hide DigitsEnd, StandsAt, Render;
    BoundariesOf(s, i, t);
    var a, b := i + 1 + |t.flag|, i + 1 + |t.flag| + |t.width|;
    var c := b + |t.precision|;
    NotAPart(t.spec);
    assert forall k | a <= k < b :: s[k] == t.width[k - a];
    assert forall k | b <= k < c :: s[k] == t.precision[k - b];
    assert t.flag != "" ==> s[i + 1] == t.flag[0];
    assert FlagEnd(s, i + 1) == a by {
      if t.flag == "" {
        assert s[i + 1] == if t.width != "" then t.width[0] else if t.precision != "" then t.precision[0] else t.spec;
        ZeroIsDigit(t);
      }
    }
    assert s[b] == if t.precision != "" then t.precision[0] else t.spec;
    DigitsEndIs(s, a, b);
    if t.precision != "" {
      forall k | b + 1 <= k < c ensures IsDigit(s[k]) {
        assert s[k] == t.precision[1..][k - b - 1];
      }
      DigitsEndIs(s, b + 1, c);
    }
  }

  lemma ZeroIsDigit(t: Token)
    requires t.Directive? && Valid(t) && t.flag == ""
    ensures t.width != "" ==> t.width[0] != '0' && t.width[0] != '-'
    ensures t.precision != "" ==> t.precision[0] != '0' && t.precision[0] != '-'
    ensures t.spec != '0' && t.spec != '-'
  {
    NotAPart(t.spec);
    assert t.width != "" ==> IsDigit(t.width[0]);
  }

  lemma TokenIsRead(s: string, i: nat, t: Token)
    requires Valid(t) && StandsAt(s, i, t)
    ensures i < |s| && TokenAt(s, i) == Some(t)
  {
    match t
    case Directive(_, _, _, _) => DirectiveIsRead(s, i, t);
    case Plain(c) => assert s[i..i + 1][0] == c;
    case Time(c) => assert s[i..i + 2][0] == '@' && s[i..i + 2][1] == c;
    case Escape(c) => assert s[i..i + 2][0] == '\\' && s[i..i + 2][1] == c;
  }

  // --- reading a whole string ---

  /** The tokens from i on, or none if there is something that is no token. */
  function Tokens(s: string, i: nat): Option<seq<Token>>
    requires i <= |s|
    decreases |s| - i
  {
    if i == |s| then Some([])
    else
      match TokenAt(s, i)
      case None => None
      case Some(t) =>
        TokenIsThere(s, i);
        match Tokens(s, i + |Render(t)|)
        case None => None
        case Some(ts) => Some([t] + ts)
  }

  lemma NextToken(s: string, i: nat)
    requires i < |s|
    ensures TokenAt(s, i) == None ==> Tokens(s, i) == None
    ensures TokenAt(s, i).Some? ==>
              var j := i + |Render(TokenAt(s, i).value)|;
              && j <= |s|
              && Tokens(s, i) == match Tokens(s, j)
                                 case None => None
                                 case Some(ts) => Some([TokenAt(s, i).value] + ts)
  {
    if TokenAt(s, i).Some? {
      TokenIsThere(s, i);
    }
  }

  lemma NoneLeft(s: string)
    ensures Tokens(s, |s|) == Some([]) && RenderAll([]) == "" && AllValid([])
  {
  }

  lemma FirstOfAll(t: Token, ts: seq<Token>)
    ensures RenderAll([t] + ts) == Render(t) + RenderAll(ts)
    ensures AllValid([t] + ts) <==> Valid(t) && AllValid(ts)
  {
    hide Render, Valid;
    assert ([t] + ts)[1..] == ts;
    if AllValid([t] + ts) {
      assert ([t] + ts)[0] == t;
      assert forall k | 0 <= k < |ts| :: ([t] + ts)[k + 1] == ts[k];
    }
  }

  lemma {:induction false} TokensAreThere(s: string, i: nat)
    requires i <= |s| && Tokens(s, i).Some?
    ensures AllValid(Tokens(s, i).value) && RenderAll(Tokens(s, i).value) == s[i..]
    decreases |s| - i
  {
    hide TokenAt, Valid, Render, RenderAll, AllValid, Tokens;
    if i == |s| {
      NoneLeft(s);
    } else {
      NextToken(s, i);
      TokenIsThere(s, i);
      var t := TokenAt(s, i).value;
      var j := i + |Render(t)|;
      TokensAreThere(s, j);
      FirstOfAll(t, Tokens(s, j).value);
      Seam(s, i, j, |s|);
    }
  }

  lemma {:induction false} TokensAreRead(s: string, i: nat, ts: seq<Token>)
    requires i <= |s| && AllValid(ts) && RenderAll(ts) == s[i..]
    ensures Tokens(s, i) == Some(ts)
    decreases |ts|
  {
    hide TokenAt, Valid, Render, RenderAll, AllValid, Tokens;
    NoneLeft(s);
    if ts != [] {
      var t, r := ts[0], Render(ts[0]);
      assert [t] + ts[1..] == ts;
      FirstOfAll(t, ts[1..]);
      SplitPrefix(s, i, r, RenderAll(ts[1..]));
      TokenIsRead(s, i, t);
      TokensAreRead(s, i + |r|, ts[1..]);
      NextToken(s, i);
    }
  }

  lemma SplitPrefix(s: string, i: nat, r: string, rest: string)
    requires i <= |s| && s[i..] == r + rest
    ensures i + |r| <= |s| && s[i..i + |r|] == r && s[i + |r|..] == rest
  {
    assert s[i..][..|r|] == r && s[i..][|r|..] == rest;
  }

  /** A string is read as the tokens it is written from, and in no other way. */
  lemma ReadIffWritten(s: string, ts: seq<Token>)
    ensures Tokens(s, 0) == Some(ts) <==> AllValid(ts) && RenderAll(ts) == s
  {
    assert s[0..] == s;
    if Tokens(s, 0) == Some(ts) {
      TokensAreThere(s, 0);
    }
    if AllValid(ts) && RenderAll(ts) == s {
      TokensAreRead(s, 0, ts);
    }
  }

  // --- the check ---

  /** The loops of check_format over the digits behind i; ok is false if they end the string */
  method CheckDigits(str: string, i: nat) returns (ok: bool, j: nat)
    requires i + 1 < |str|
    ensures i <= j && j + 1 == DigitsEnd(str, i + 1) && (ok <==> j + 1 < |str|)
  {
    hide DigitsEnd;
    j := i;
    while '0' <= str[j + 1] <= '9'
      invariant i <= j && j + 1 < |str| && DigitsEnd(str, j + 1) == DigitsEnd(str, i + 1)
      decreases |str| - j
    {
      DigitsStep(str, j + 1);
      j := j + 1;
      if j == |str| - 1 {
        NoDigits(str, j + 1);
        return false, j;
      }
    }
    NoDigits(str, j + 1);
    ok := true;
  }

  /** The chain of check_format over the specifiers */
  method CheckSpecifier(c: char) returns (ok: bool)
    ensures ok <==> IsSpecifier(c)
  {
    if c == '%' { ok := true; }
    else if c == 'A' { ok := true; }
    else if c == 'C' { ok := true; }
    else if c == 'D' { ok := true; }
    else if c == 'E' { ok := true; }
    else if c == 'F' { ok := true; }
    else if c == 'I' { ok := true; }
    else if c == 'l' { ok := true; }
    else if c == 'm' { ok := true; }
    else if c == 'P' { ok := true; }
    else if c == 'p' { ok := true; }
    else if c == 'q' { ok := true; }
    else if c == 'R' { ok := true; }
    else if c == 'S' { ok := true; }
    else if c == 'r' { ok := true; }
    else if c == 't' { ok := true; }
    else if c == 'j' { ok := true; }
    else if c == 'J' { ok := true; }
    else if c == 'U' { ok := true; }
    else if c == 'x' || c == 'X' { ok := true; }
    else { ok := false; }
  }

  /** The switch of check_format over the escapes */
  method CheckEscape(c: char) returns (ok: bool)
    ensures ok <==> IsEscape(c)
  {
    match c
    case '\\' => ok := true;
    case '0' => ok := true;
    case 'a' => ok := true;
    case 'e' => ok := true;
    case 'n' => ok := true;
    case 'r' => ok := true;
    case 't' => ok := true;
    case 'v' => ok := true;
    case _ => ok := false;
  }

  /** The part of check_format that reads a directive; j is the index of its specifier */
  method CheckDirective(str: string, i0: nat) returns (ok: bool, j: nat)
    requires i0 < |str| && str[i0] == '%'
    ensures ok <==> TokenAt(str, i0).Some?
    ensures ok ==> j + 1 == i0 + |Render(TokenAt(str, i0).value)|
  {
    hide DigitsEnd, TokenAt, Render, IsSpecifier;
    var i, len := i0, |str|;
    AtPercent(str, i);
    NoDigits(str, len);
    if i == len - 1 {
      return false, i;
    }
    if str[i + 1] == '0' || str[i + 1] == '-' {
      i := i + 1;
      if i == len - 1 {
        return false, i;
      }
    }
    ok, i := CheckDigits(str, i);
    if !ok {
      return false, i;
    }
    if str[i + 1] == '.' {
      i := i + 1;
      if i == len - 1 {
        return false, i;
      }
      ok, i := CheckDigits(str, i);
      if !ok {
        return false, i;
      }
    }
    ok := CheckSpecifier(str[i + 1]);
    j := i + 1;
  }

  /** check_format: 0 for a string that can be written from the grammar, 1 for any other */
  method CheckFormat(str: string) returns (r: int)
    ensures r == 0 || r == 1
    ensures r == 0 <==> Tokens(str, 0).Some?
  {
    hide Tokens, TokenAt, Render;
    var i, len := 0, |str|;
    NoneLeft(str);
    while i < len
      invariant i <= len && (Tokens(str, i).Some? <==> Tokens(str, 0).Some?)
    {
      NextToken(str, i);
      if str[i] == '%' {
        var ok, j := CheckDirective(str, i);
        if !ok {
          return 1;
        }
        i := j;
      } else if str[i] == '@' {
        AtOther(str, i);
        if i == len - 1 {
          return 1;
        }
        i := i + 1;
      } else if str[i] == '\\' {
        AtOther(str, i);
        if i == len - 1 {
          return 1;
        }
        var ok := CheckEscape(str[i + 1]);
        if !ok {
          return 1;
        }
        i := i + 1;
      } else {
        AtOther(str, i);
      }
      i := i + 1;
    }
    r := 0;
  }

  lemma NoDigits(s: string, i: nat)
    requires i < |s| ==> !IsDigit(s[i])
    ensures DigitsEnd(s, i) == i
  {
  }

  lemma DigitsStep(s: string, i: nat)
    requires i < |s| && IsDigit(s[i])
    ensures DigitsEnd(s, i) == DigitsEnd(s, i + 1)
  {
  }

  lemma AtPercent(s: string, i: nat)
    requires i < |s| && s[i] == '%'
    ensures var c := PrecisionEnd(s, DigitsEnd(s, FlagEnd(s, i + 1)));
            && (TokenAt(s, i).Some? <==> c < |s| && IsSpecifier(s[c]))
            && (TokenAt(s, i).Some? ==> i + |Render(TokenAt(s, i).value)| == c + 1)
  {
    hide DigitsEnd;
  }

  lemma AtOther(s: string, i: nat)
    requires i < |s| && s[i] != '%'
    ensures s[i] == '@' ==> TokenAt(s, i) == if i + 1 < |s| then Some(Time(s[i + 1])) else None
    ensures s[i] == '\\' ==>
              TokenAt(s, i) == if i + 1 < |s| && IsEscape(s[i + 1]) then Some(Escape(s[i + 1])) else None
    ensures s[i] != '@' && s[i] != '\\' ==> TokenAt(s, i) == Some(Plain(s[i]))
    ensures TokenAt(s, i).Some? ==> |Render(TokenAt(s, i).value)| == if s[i] == '@' || s[i] == '\\' then 2 else 1
  {
  }

  // --- the printer ---

  /** The case labels of formatted_print_percent. */
  predicate HasCase(c: char) {
    match c
    case '%' => true
    case 'A' => true
    case 'C' => true
    case 'D' => true
    case 'E' => true
    case 'F' => true
    case 'I' => true
    case 'j' => true
    case 'J' => true
    case 'l' => true
    case 'm' => true
    case 'P' => true
    case 'p' => true
    case 'q' => true
    case 'R' => true
    case 'r' => true
    case 'S' => true
    case 't' => true
    case 'U' => true
    case 'x' => true
    case 'X' => true
    case _ => false
  }

  /** What the printer does for a token: write a character, format a value, or print the time.
      A negative precision is none. */
  datatype Action =
    | Put(c: char)
    | Percent(format: char, left: bool, pad: char, width: nat, precision: int)
    | Clock(c: char)
    | Nanoseconds

  /** An action, and the indices where the text for it starts and ends. */
  datatype Event = Event(start: nat, end: nat, action: Action)

  function DigitValue(c: char): nat {
    if IsDigit(c) then c as int - '0' as int else 0
  }

  function Number(s: string): nat {
    if s == "" then 0 else Number(s[..|s| - 1]) * 10 + DigitValue(s[|s| - 1])
  }

  /** n in decimal. */
  function Decimal(n: nat): string {
    (if n < 10 then "" else Decimal(n / 10)) + ["0123456789"[n % 10]]
  }

  /** The digits of a width or a precision mean the number they are the decimal form of. */
  lemma {:induction false} NumberOfDecimal(n: nat)
    ensures AllDigits(Decimal(n)) && Number(Decimal(n)) == n
  {
    hide Number;
    assert Number("") == 0 by {
      NoNumber("", 0);
    }
    DigitOf(n % 10);
    var front := if n < 10 then "" else Decimal(n / 10);
    if 10 <= n {
      NumberOfDecimal(n / 10);
    }
    NumberOfLonger(front, "0123456789"[n % 10]);
  }

  lemma DigitOf(d: nat)
    requires d < 10
    ensures IsDigit("0123456789"[d]) && DigitValue("0123456789"[d]) == d
  {
  }

  lemma NumberOfLonger(s: string, c: char)
    ensures Number(s + [c]) == Number(s) * 10 + DigitValue(c)
  {
    assert (s + [c])[..|s|] == s;
  }

  /** What a token means. */
  function ActionOf(t: Token): Action {
    match t
    case Plain(c) => Put(c)
    case Time(c) => if c == '@' then Put('@') else if c == 'N' then Nanoseconds else Clock(c)
    case Escape(c) => Put(if IsEscape(c) then ESCAPES[c] as char else c)
    case Directive(flag, width, precision, spec) =>
      Percent(spec, flag == "-",
              if flag == "0" || (width != "" && width[0] == '0') then '0' else ' ',
              Number(width), if precision == "" then -1 else Number(precision[1..]))
  }

  function EventsOf(ts: seq<Token>, pos: nat): seq<Event> {
    if ts == [] then []
    else
      var end := pos + |Render(ts[0])|;
      [Event(pos, end, ActionOf(ts[0]))] + EventsOf(ts[1..], end)
  }

  /** formatted_print_percent: what is printed, if the switch has a case for it */
  method FormattedPrintPercent(format: char, left: bool, pad: char, width: nat, precision: int)
    returns (out: Option<Action>)
    ensures out == if HasCase(format) then Some(Percent(format, left, pad, width, precision)) else None
  {
    out := if HasCase(format) then Some(Percent(format, left, pad, width, precision)) else None;
  }

  /** The check lets pass what the switch has a case for, and nothing else. */
  lemma SpecifierIffCase(c: char)
    ensures IsSpecifier(c) <==> HasCase(c)
  {
  }

  lemma NumberStep(s: string, i: nat, j: nat)
    requires i <= j < |s| && AllDigits(s[i..j]) && IsDigit(s[j])
    ensures AllDigits(s[i..j + 1])
    ensures Number(s[i..j + 1]) == Number(s[i..j]) * 10 + DigitValue(s[j])
  {
    assert s[i..j + 1] == s[i..j] + [s[j]];
  }

  lemma {:induction false} LeadingZero(s: string)
    requires AllDigits(s) && s != "" && s[0] == '0'
    ensures AllDigits(s[1..]) && Number(s) == Number(s[1..])
  {
    if |s| > 1 {
      LeadingZero(s[..|s| - 1]);
      assert s[..|s| - 1][1..] == s[1..][..|s| - 2];
    } else {
      assert s[..0] == "";
    }
  }

  /** The loops of formatted_print over digits from i on */
  method PrintDigits(s: string, i: nat) returns (j: nat, v: nat)
    requires i < |s|
    ensures i <= j < |s| && AllDigits(s[i..j]) && v == Number(s[i..j])
    ensures DigitsEnd(s, i) < |s| ==> j == DigitsEnd(s, i)
  {
    hide DigitsEnd, Number;
    j, v := i, 0;
    NoNumber(s, i);
    while j < |s| - 1 && '0' <= s[j] <= '9'
      invariant i <= j < |s| && AllDigits(s[i..j]) && v == Number(s[i..j])
      invariant DigitsEnd(s, i) == DigitsEnd(s, j)
    {
      DigitsStep(s, j);
      NumberStep(s, i, j);
      v := v * 10;
      v := v + (s[j] as int - '0' as int);
      j := j + 1;
    }
    if IsDigit(s[j]) {
      DigitsStep(s, j);
      NoDigits(s, j + 1);
    } else {
      NoDigits(s, j);
    }
  }

  lemma NoNumber(s: string, i: nat)
    requires i <= |s|
    ensures s[i..i] == "" && AllDigits(s[i..i]) && Number(s[i..i]) == 0
  {
  }

  /** Where the parts of an accepted directive are. */
  lemma PartsOfDirective(s: string, i: nat)
    requires i < |s| && s[i] == '%' && TokenAt(s, i).Some?
    ensures var a := FlagEnd(s, i + 1);
            var b := DigitsEnd(s, a);
            var c := PrecisionEnd(s, b);
            && TokenAt(s, i) == Some(Directive(s[i + 1..a], s[a..b], s[b..c], s[c]))
            && Valid(TokenAt(s, i).value)
            && i + |Render(TokenAt(s, i).value)| == c + 1 && c < |s| && i + 1 <= a <= b <= c && HasCase(s[c])
            && !IsDigit(s[c]) && s[c] != '.' && s[c] != '-'
  {
    hide DigitsEnd;
    TokenIsThere(s, i);
    NotAPart(s[PrecisionEnd(s, DigitsEnd(s, FlagEnd(s, i + 1)))]);
    SpecifierIffCase(s[PrecisionEnd(s, DigitsEnd(s, FlagEnd(s, i + 1)))]);
  }

  /** How alignment and padding show in the text of an accepted directive. */
  lemma FlagsOfDirective(s: string, i: nat)
    requires i < |s| && s[i] == '%' && TokenAt(s, i).Some?
    ensures TokenAt(s, i).value.Directive? && i + 1 < |s|
    ensures var a := FlagEnd(s, i + 1);
            var t := TokenAt(s, i).value;
            && a < |s| && a == (if s[i + 1] == '-' || s[i + 1] == '0' then i + 2 else i + 1)
            && (t.flag == "-" <==> s[i + 1] == '-') && (t.flag == "0" <==> s[i + 1] == '0')
            && (t.width != "" && t.width[0] == '0' <==> s[a] == '0')
            && (s[a] == '0' ==> a < DigitsEnd(s, a)) && AllDigits(s[a..DigitsEnd(s, a)])
  {
    hide TokenAt, PrecisionEnd, IsSpecifier, HasCase;
    PartsOfDirective(s, i);
  }

  /** The part of formatted_print that reads alignment, padding and width; i is the index behind them */
  method PrintWidth(s: string, i0: nat) returns (i: nat, left: bool, pad: char, width: nat)
    requires i0 + 1 < |s| && s[i0] == '%'
    ensures i0 < i < |s|
    ensures TokenAt(s, i0).Some? ==>
              var t := TokenAt(s, i0).value;
              && t.Directive? && i == DigitsEnd(s, FlagEnd(s, i0 + 1))
              && left == (t.flag == "-") && width == Number(t.width)
              && pad == if t.flag == "0" || (t.width != "" && t.width[0] == '0') then '0' else ' '
  {
    hide DigitsEnd, TokenAt, Render, HasCase, PrecisionEnd, Number, Valid, FlagEnd, AllDigits;
    ghost var a := FlagEnd(s, i0 + 1);
    ghost var b := DigitsEnd(s, a);
    if TokenAt(s, i0).Some? {
      PartsOfDirective(s, i0);
      FlagsOfDirective(s, i0);
    }
    left, pad, i := false, ' ', i0 + 1;
    if s[i] == '-' {
      left := true;
      if i < |s| - 1 {
        i := i + 1;
      }
    }
    if s[i] == '0' {
      pad := '0';
      if i < |s| - 1 {
        i := i + 1;
      }
    }
    ghost var w := i;
    i, width := PrintDigits(s, i);
    if TokenAt(s, i0).Some? {
      if s[i0 + 1] == '-' && s[a] == '0' {
        DigitsStep(s, a);
        LeadingZero(s[a..b]);
        assert s[a..b][1..] == s[w..b];
      } else {
        assert w == a;
      }
    }
  }

  /** The part of formatted_print that reads a directive; j is the index of its specifier */
  method PrintDirective(s: string, i0: nat) returns (j: nat, out: Option<Action>)
    requires i0 + 1 < |s| && s[i0] == '%'
    ensures i0 < j < |s|
    ensures TokenAt(s, i0).Some? ==>
              var t := TokenAt(s, i0).value;
              j + 1 == i0 + |Render(t)| && out == Some(ActionOf(t))
  {
    hide DigitsEnd, TokenAt, Render, HasCase, Number, Valid;
    if TokenAt(s, i0).Some? {
      PartsOfDirective(s, i0);
    }
    var i, left, pad, width := PrintWidth(s, i0);
    ghost var b := i;
    var precision: int := -1;
    if s[i] == '.' {
      if i < |s| - 1 {
        i := i + 1;
        i, precision := PrintDigits(s, i);
        assert s[b..i][1..] == s[b + 1..i];
      }
    }
    out := FormattedPrintPercent(s[i], left, pad, width, precision);
    j := i;
  }

  /** The switch of formatted_print over the escapes */
  method PrintEscape(c: char) returns (out: Option<Action>)
    ensures out == if IsEscape(c) then Some(ActionOf(Escape(c))) else None
    ensures out == if IsEscape(c) then Some(Put(ESCAPES[c] as char)) else None
  {
    match c
    case '\\' => out := Some(Put('\\'));
    case '0' => out := Some(Put('\0'));
    case 'a' => out := Some(Put('\U{07}'));
    case 'e' => out := Some(Put('\U{1B}'));
    case 'n' => out := Some(Put('\n'));
    case 'r' => out := Some(Put('\r'));
    case 't' => out := Some(Put('\t'));
    case 'v' => out := Some(Put('\U{0B}'));
    case _ => out := None;
  }

  /** An escape alone is one token. */
  lemma EscapeAlone(format: string, c: char)
    requires format == ['\\', c] && IsEscape(c)
    ensures Tokens(format, 0).Some?
    ensures EventsOf(Tokens(format, 0).value, 0) == [Event(0, 2, Put(ESCAPES[c] as char))]
  {
    hide Tokens, AllValid, RenderAll;
    var t := Escape(c);
    assert [t] + [] == [t] && Render(t) + "" == format;
    NoneLeft(format);
    FirstOfAll(t, []);
    ReadIffWritten(format, [t]);
    NoEvents(2);
  }

  /** formatted_print, without the line end */
  method FormattedPrint(format: string) returns (events: seq<Event>)
    ensures Tokens(format, 0).Some? ==> events == EventsOf(Tokens(format, 0).value, 0)
    ensures forall c | format == ['\\', c] && IsEscape(c) :: events == [Event(0, 2, Put(ESCAPES[c] as char))]
  {
    hide Tokens, TokenAt, Render, EventsOf, ActionOf, Valid, AllValid;
    events := [];
    var i, len := 0, |format|;
    while i < len
      invariant i <= len
      invariant Tokens(format, 0).Some? ==>
                  && Tokens(format, i).Some?
                  && EventsOf(Tokens(format, 0).value, 0) == events + EventsOf(Tokens(format, i).value, i)
    {
      ghost var start := i;
      if Tokens(format, 0).Some? {
        ghost var t, j := NextEvent(format, i);
      }
      if format[i] == '%' {
        if i < len - 1 {
          var j, out := PrintDirective(format, i);
          if out.Some? {
            events := events + [Event(i, j + 1, out.value)];
          }
          i := j;
        } else {
          AtEnd(format, i);
        }
      } else if format[i] == '@' {
        AtOther(format, i);
        if i < len - 1 {
          i := i + 1;
          if format[i] == '@' {
            events := events + [Event(i - 1, i + 1, Put('@'))];
          } else if format[i] == 'N' {
            events := events + [Event(i - 1, i + 1, Nanoseconds)];
          } else {
            events := events + [Event(i - 1, i + 1, Clock(format[i]))];
          }
          TimeAction(format[i]);
        }
      } else if format[i] == '\\' {
        AtOther(format, i);
        if i < len - 1 {
          i := i + 1;
          var out := PrintEscape(format[i]);
          if out.Some? {
            events := events + [Event(i - 1, i + 1, out.value)];
          }
        }
      } else {
        AtOther(format, i);
        events := events + [Event(i, i + 1, Put(format[i]))];
        PlainAction(format[i]);
      }
      i := i + 1;
    }
    NoneLeft(format);
    NoEvents(len);
    forall c | format == ['\\', c] && IsEscape(c)
      ensures Tokens(format, 0).Some?
      ensures EventsOf(Tokens(format, 0).value, 0) == [Event(0, 2, Put(ESCAPES[c] as char))]
    {
      EscapeAlone(format, c);
    }
  }

  lemma NoEvents(pos: nat)
    ensures EventsOf([], pos) == []
  {
  }

  lemma NextEvent(s: string, i: nat) returns (t: Token, j: nat)
    requires i < |s| && Tokens(s, i).Some?
    ensures TokenAt(s, i) == Some(t) && j == i + |Render(t)| <= |s|
    ensures Tokens(s, j).Some?
    ensures EventsOf(Tokens(s, i).value, i) == [Event(i, j, ActionOf(t))] + EventsOf(Tokens(s, j).value, j)
  {
    hide TokenAt, Render, ActionOf, Tokens;
    NextToken(s, i);
    t := TokenAt(s, i).value;
    j := i + |Render(t)|;
    var ts := Tokens(s, j).value;
    assert ([t] + ts)[1..] == ts;
  }

  lemma AtEnd(s: string, i: nat)
    requires i + 1 == |s| && s[i] == '%'
    ensures TokenAt(s, i) == None
  {
    NoDigits(s, |s|);
  }

  lemma TimeAction(c: char)
    ensures ActionOf(Time(c)) == if c == '@' then Put('@') else if c == 'N' then Nanoseconds else Clock(c)
  {
  }

  lemma PlainAction(c: char)
    ensures c != '%' && c != '@' && c != '\\' ==> ActionOf(Plain(c)) == Put(c)
  {
  }

  /** For every string the check accepts, the printer finds the same tokens at the same places and does for each
      what the grammar says; no directive is dropped. */
  method CheckThenPrint(format: string) returns (r: int, events: seq<Event>)
    ensures r == 0 <==> exists ts :: AllValid(ts) && RenderAll(ts) == format
    ensures r == 0 ==> forall ts | AllValid(ts) && RenderAll(ts) == format :: events == EventsOf(ts, 0)
  {
    hide Tokens, AllValid, RenderAll, EventsOf;
    events := [];
    r := CheckFormat(format);
    if r == 0 {
      events := FormattedPrint(format);
      ReadIffWritten(format, Tokens(format, 0).value);
    }
    forall ts: seq<Token> | AllValid(ts) && RenderAll(ts) == format ensures Tokens(format, 0) == Some(ts) {
      ReadIffWritten(format, ts);
    }
  }
}
