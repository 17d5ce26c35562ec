/**
  The boot environment of uboot.c: NUL-terminated strings name=value, one after the
  other, in a zeroed area of flash that a CRC protects.

  The specification works on the list of strings; the methods edit the bytes.
 */
module BootEnv {
  import opened Basics

  /** A C string, without its terminator. */
  type Str = seq<Byte>

  const SEMICOLON: Byte := ';' as int
  const EQUALS: Byte := '=' as int

  /** What printf writes for a null string: (null) */
  const NULL_TEXT: Str := [40, 110, 117, 108, 108, 41]

  predicate IsText(s: Str) {
    forall k | 0 <= k < |s| :: s[k] != 0
  }

  /** An empty string would end the environment. */
  predicate WellFormed(es: seq<Str>) {
    forall k | 0 <= k < |es| :: es[k] != [] && IsText(es[k])
  }

  // --- the bytes of an environment ---

  function Serialize(es: seq<Str>): seq<Byte> {
    if es == [] then [] else Serialize(es[..|es| - 1]) + es[|es| - 1] + [0]
  }

  /** A buffer into which the strings were written from its start on. */
  function Over(es: seq<Str>, base: seq<Byte>): (b: seq<Byte>)
    requires |Serialize(es)| <= |base|
    ensures |b| == |base|
  {
    Serialize(es) + base[|Serialize(es)|..]
  }

  /** Where string t starts. */
  function Offset(es: seq<Str>, t: nat): nat
    requires t <= |es|
  {
    |Serialize(es[..t])|
  }

  lemma OffsetStep(es: seq<Str>, t: nat)
    requires t < |es|
    ensures Serialize(es[..t + 1]) == Serialize(es[..t]) + es[t] + [0]
    ensures Offset(es, t + 1) == Offset(es, t) + |es[t]| + 1
  {
    assert es[..t + 1][..t] == es[..t];
  }

  lemma {:induction false} SerializePrefix(es: seq<Str>, t: nat)
    requires t <= |es|
    ensures Serialize(es[..t]) <= Serialize(es)
    decreases |es| - t
  {
    if t < |es| {
      OffsetStep(es, t);
      SerializePrefix(es, t + 1);
    } else {
      assert es[..t] == es;
    }
  }

  lemma SerializeAppend(es: seq<Str>, e: Str)
    ensures Serialize(es + [e]) == Serialize(es) + e + [0]
  {
    assert (es + [e])[..|es|] == es;
  }

  /** b holds the strings es, and the empty string after them. */
  ghost predicate Holds(b: seq<Byte>, es: seq<Str>) {
    Serialize(es) + [0] <= b
  }

  /** The data area with its strings and the empty string behind them zeroed; what lies further on stays. */
  function Cleared(data: seq<Byte>, es: seq<Str>): (b: seq<Byte>)
    requires |Serialize(es)| < |data|
    ensures |b| == |data|
  {
    Zeros(|Serialize(es)| + 1) + data[|Serialize(es)| + 1..]
  }

  /** Whether the strings fs find a zero behind them when they take the place of the strings es. */
  predicate EndsInZero(data: seq<Byte>, es: seq<Str>, fs: seq<Str>) {
    && |Serialize(fs)| < |data|
    && (|Serialize(fs)| <= |Serialize(es)| || data[|Serialize(fs)|] == 0)
  }

  /** The area holds exactly the new strings if and only if there is a zero for them to end in. */
  lemma OverHolds(data: seq<Byte>, es: seq<Str>, fs: seq<Str>)
    requires |Serialize(es)| < |data| && |Serialize(fs)| <= |data|
    ensures Holds(Over(fs, Cleared(data, es)), fs) <==> EndsInZero(data, es, fs)
  {
    hide Serialize;
    var base, n := Cleared(data, es), |Serialize(fs)|;
    var b := Over(fs, base);
    if n < |data| {
      assert b[n] == base[n];
      assert b[..n + 1] == Serialize(fs) + [base[n]];
      assert base[n] == if n <= |Serialize(es)| then 0 else data[n];
      assert (Serialize(fs) + [0])[n] == 0;
    }
  }

  /** An area of zeros behind the strings stays one. */
  lemma ZerosStay(es: seq<Str>, fs: seq<Str>, n: nat)
    requires |Serialize(es)| < n && |Serialize(fs)| <= n
    ensures Holds(Over(es, Zeros(n)), es)
    ensures Over(fs, Cleared(Over(es, Zeros(n)), es)) == Over(fs, Zeros(n))
    ensures |Serialize(fs)| < n ==> EndsInZero(Over(es, Zeros(n)), es, fs)
  {
    hide Serialize;
    var data, k := Over(es, Zeros(n)), |Serialize(es)|;
    assert data[..k + 1] == Serialize(es) + [0];
    assert Cleared(data, es) == Zeros(n);
  }

  /** What a scan meets at string t: that string and its terminator, or the empty string at the end. */
  lemma StringAt(b: seq<Byte>, es: seq<Str>, t: nat)
    requires Holds(b, es) && t <= |es|
    ensures Offset(es, t) < |b|
    ensures t == |es| ==> b[Offset(es, t)] == 0
    ensures t < |es| ==>
              var i := Offset(es, t);
              i + |es[t]| < |b| && b[i..i + |es[t]|] == es[t] && b[i + |es[t]|] == 0
  {
    hide Serialize;
    if t == |es| {
      assert es[..t] == es;
    } else {
      SerializePrefix(es, t + 1);
      OffsetStep(es, t);
      var i, e := Serialize(es[..t]), es[t];
      assert i + e + [0] <= b;
      assert (i + e + [0])[|i|..|i| + |e|] == e;
    }
  }

  /** The first terminator from i on is the n-th byte. */
  predicate LengthIs(b: seq<Byte>, i: nat, n: nat) {
    && i + n < |b| && b[i + n] == 0
    && forall k | i <= k < i + n :: b[k] != 0
  }

  lemma ScanFinds(b: seq<Byte>, es: seq<Str>, t: nat, n: nat)
    requires Holds(b, es) && WellFormed(es) && t <= |es| && LengthIs(b, Offset(es, t), n)
    ensures n > 0 <==> t < |es|
    ensures t < |es| ==> b[Offset(es, t)..Offset(es, t) + n] == es[t]
    ensures t < |es| ==> Offset(es, t + 1) == Offset(es, t) + n + 1
  {
    hide Offset;
    StringAt(b, es, t);
    if t < |es| {
      OffsetStep(es, t);
      var i := Offset(es, t);
      SameLength(b, i, n, es[t]);
    }
  }

  lemma SameLength(b: seq<Byte>, i: nat, n: nat, e: Str)
    requires LengthIs(b, i, n) && IsText(e) && i + |e| < |b| && b[i..i + |e|] == e && b[i + |e|] == 0
    ensures n == |e|
  {
    forall k | i <= k < i + |e| ensures b[k] == e[k - i] {
      assert b[i..i + |e|][k - i] == b[k];
    }
  }

  /** The strings can be read off the bytes again. */
  lemma {:induction false} ImageDetermines(es: seq<Str>, fs: seq<Str>, b: seq<Byte>, t: nat)
    requires WellFormed(es) && WellFormed(fs) && Holds(b, es) && Holds(b, fs)
    requires t <= |es| && t <= |fs| && es[..t] == fs[..t]
    ensures es == fs
    decreases |es| - t
  {
    hide Holds, Offset;
    EndsAt(b, es, t);
    EndsAt(b, fs, t);
    assert Offset(es, t) == Offset(fs, t) by {
      SameOffset(es, fs, t);
    }
    if t < |es| {
      StringAt(b, es, t);
      StringAt(b, fs, t);
      TextIsLength(b, Offset(es, t), es[t]);
      SameLength(b, Offset(es, t), |es[t]|, fs[t]);
      assert es[..t + 1] == es[..t] + [es[t]] && fs[..t + 1] == fs[..t] + [fs[t]];
      ImageDetermines(es, fs, b, t + 1);
    }
  }

  lemma SameOffset(es: seq<Str>, fs: seq<Str>, t: nat)
    requires t <= |es| && t <= |fs| && es[..t] == fs[..t]
    ensures Offset(es, t) == Offset(fs, t)
  {
  }

  /** An empty string is met only at the end. */
  lemma EndsAt(b: seq<Byte>, es: seq<Str>, t: nat)
    requires WellFormed(es) && Holds(b, es) && t <= |es|
    ensures Offset(es, t) < |b| && (b[Offset(es, t)] == 0 <==> t == |es|)
  {
    hide Offset;
    StringAt(b, es, t);
    if t < |es| {
      assert b[Offset(es, t)..Offset(es, t) + |es[t]|][0] == es[t][0];
    }
  }

  lemma TextIsLength(b: seq<Byte>, i: nat, e: Str)
    requires IsText(e) && i + |e| < |b| && b[i..i + |e|] == e && b[i + |e|] == 0
    ensures LengthIs(b, i, |e|)
  {
    forall k | i <= k < i + |e| ensures b[k] != 0 {
      assert b[k] == e[k - i];
    }
  }

  // --- the operations on the list of strings ---

  /** strncmp(e, v, strlen(v)) == 0 for one of the names. */
  predicate Hit(e: Str, names: seq<Str>) {
    exists k | 0 <= k < |names| :: names[k] <= e
  }

  /** The strings that start with none of the names. */
  function Delete(es: seq<Str>, names: seq<Str>): seq<Str> {
    if es == [] then []
    else
      var kept := Delete(es[..|es| - 1], names);
      if Hit(es[|es| - 1], names) then kept else kept + [es[|es| - 1]]
  }

  function Setting(name: Str, value: Str): Str {
    name + [EQUALS] + value
  }

  /** write_ubootcfg on the strings */
  function Write(es: seq<Str>, name: Str, value: Str): seq<Str> {
    Delete(es, [name]) + [Setting(name, value)]
  }

  datatype Lookup = NotFound | Found(value: Str) | Fault

  /** strstr(s, name) != NULL */
  predicate Contains(s: Str, name: Str) {
    exists k | 0 <= k <= |s| - |name| :: StandsAt(s, name, k)
  }

  predicate StandsAt(s: Str, name: Str, k: nat)
    requires k + |name| <= |s|
  {
    s[k..k + |name|] == name
  }

  /** It is found wherever it stands, and nowhere else. */
  lemma ContainsIff(s: Str, name: Str)
    ensures Contains(s, name) <==> exists a: Str, b: Str :: s == a + name + b
  {
    if Contains(s, name) {
      var k :| 0 <= k <= |s| - |name| && StandsAt(s, name, k);
      assert s == s[..k] + name + s[k + |name|..];
    }
    forall a: Str, b: Str | s == a + name + b
      ensures Contains(s, name)
    {
      StandsBehind(a, name, b);
      assert StandsAt(s, name, |a|);
    }
  }

  lemma StandsBehind(a: Str, name: Str, b: Str)
    ensures (a + name + b)[|a|..|a| + |name|] == name
  {
  }

  /** Into a static buffer of 64 bytes. */
  function Truncated(s: Str): Str {
    if |s| < 64 then s else s[..63]
  }

  /** What is read from the string that was found; Fault if it holds no equals sign. */
  function ValueIn(s: Str): Lookup {
    match Rest(s, EQUALS)
    case Some(value) => Found(Truncated(value))
    case None => Fault
  }

  /** read_ubootcfg on the strings */
  function Read(es: seq<Str>, name: Str): Lookup {
    if es == [] then NotFound
    else
      var before := Read(es[..|es| - 1], name);
      if before == NotFound && Contains(es[|es| - 1], name) then ValueIn(es[|es| - 1]) else before
  }

  /** The index of the first delim, or the length. */
  function Cut(s: Str, delim: Byte): (k: nat)
    ensures k <= |s| && delim !in s[..k] && (k < |s| ==> s[k] == delim)
  {
    if s == [] || s[0] == delim then 0 else 1 + Cut(s[1..], delim)
  }

  function Token(s: Str, delim: Byte): Str {
    s[..Cut(s, delim)]
  }

  function Rest(s: Str, delim: Byte): Option<Str> {
    var k := Cut(s, delim);
    if k < |s| then Some(s[k + 1..]) else None
  }

  datatype Item = Item(name: Str, value: Option<Str>)

  /** The items of a string k1=v1;k2=v2;... */
  function Items(cfg: Str): seq<Item> {
    if cfg == [] then []
    else
      var token := Token(cfg, SEMICOLON);
      [Item(Token(token, EQUALS), Rest(token, EQUALS))]
      + match Rest(cfg, SEMICOLON)
        case Some(rest) => Items(rest)
        case None => []
  }

  function Value(x: Item): Str {
    if x.value.Some? then x.value.value else NULL_TEXT
  }

  function Format(x: Item): Str {
    Setting(x.name, Value(x))
  }

  function Names(xs: seq<Item>): (names: seq<Str>)
    ensures |names| == |xs|
  {
    seq(|xs|, k requires 0 <= k < |xs| => xs[k].name)
  }

  function FormatAll(xs: seq<Item>): (es: seq<Str>)
    ensures |es| == |xs|
  {
    seq(|xs|, k requires 0 <= k < |xs| => Format(xs[k]))
  }

  /** write_multi_ubootcfg on the strings */
  function WriteMulti(es: seq<Str>, xs: seq<Item>): seq<Str> {
    Delete(es, Names(xs)) + FormatAll(xs)
  }

  // --- what the operations keep ---

  lemma DeleteStep(es: seq<Str>, t: nat, names: seq<Str>)
    requires t < |es|
    ensures Delete(es[..t + 1], names) == Delete(es[..t], names) + if Hit(es[t], names) then [] else [es[t]]
  {
    assert es[..t + 1][..t] == es[..t];
  }

  /** Exactly the strings without the names survive. */
  lemma {:induction false} DeleteMembers(es: seq<Str>, names: seq<Str>, e: Str)
    ensures e in Delete(es, names) <==> e in es && !Hit(e, names)
  {
    if es != [] {
      DeleteMembers(es[..|es| - 1], names, e);
    }
  }

  lemma {:induction false} DeleteConcat(a: seq<Str>, b: seq<Str>, names: seq<Str>)
    ensures Delete(a + b, names) == Delete(a, names) + Delete(b, names)
  {
    if b == [] {
      assert a + b == a;
    } else {
      var front := b[..|b| - 1];
      assert (a + b)[..|a + b| - 1] == a + front;
      DeleteConcat(a, front, names);
    }
  }

  lemma {:induction false} DeleteWellFormed(es: seq<Str>, names: seq<Str>)
    requires WellFormed(es)
    ensures WellFormed(Delete(es, names)) && |Serialize(Delete(es, names))| <= |Serialize(es)|
  {
    if es != [] {
      var kept := Delete(es[..|es| - 1], names);
      DeleteWellFormed(es[..|es| - 1], names);
      SerializeAppend(kept, es[|es| - 1]);
    }
  }

  lemma SettingIsText(name: Str, value: Str)
    requires IsText(name) && IsText(value)
    ensures Setting(name, value) != [] && IsText(Setting(name, value))
  {
  }

  /** A write keeps the environment well formed; the survivors keep their order and the new string is last. */
  lemma WriteWellFormed(es: seq<Str>, name: Str, value: Str)
    requires WellFormed(es) && IsText(name) && IsText(value)
    ensures WellFormed(Write(es, name, value))
  {
    DeleteWellFormed(es, [name]);
    SettingIsText(name, value);
  }

  // --- reading back ---

  lemma {:induction false} ReadNothing(es: seq<Str>, name: Str)
    ensures Read(es, name) == NotFound <==> forall k | 0 <= k < |es| :: !Contains(es[k], name)
  {
    if es != [] {
      var front := es[..|es| - 1];
      ReadNothing(front, name);
      assert forall k | 0 <= k < |front| :: es[k] == front[k];
    }
  }

  lemma ReadLast(es: seq<Str>, e: Str, name: Str)
    ensures Read(es + [e], name) ==
              if Read(es, name) == NotFound && Contains(e, name) then ValueIn(e) else Read(es, name)
  {
    assert (es + [e])[..|es|] == es;
  }

  lemma {:induction false} CutOfSetting(name: Str, tail: Str, delim: Byte)
    requires delim !in name && (tail == [] || tail[0] == delim)
    ensures Cut(name + tail, delim) == |name|
  {
    if name == [] {
      assert name + tail == tail;
    } else {
      assert (name + tail)[1..] == name[1..] + tail;
      CutOfSetting(name[1..], tail, delim);
    }
  }

  lemma SettingContains(name: Str, value: Str)
    ensures Contains(Setting(name, value), name)
  {
    assert StandsAt(Setting(name, value), name, 0);
  }

  lemma {:induction false} CutBefore(s: Str, delim: Byte, k: nat)
    requires k < |s| && s[k] == delim
    ensures Cut(s, delim) <= k
  {
    if s[0] != delim {
      CutBefore(s[1..], delim, k - 1);
    }
  }

  lemma ValueOfSetting(name: Str, value: Str)
    requires EQUALS !in name
    ensures ValueIn(Setting(name, value)) == Found(Truncated(value))
  {
    CutOfSetting(name, [EQUALS] + value, EQUALS);
    assert name + ([EQUALS] + value) == Setting(name, value);
    assert Setting(name, value)[|name| + 1..] == value;
  }

  /** An equals sign in the name hides the value behind the rest of the name. */
  lemma ValueHidden(name: Str)
    requires EQUALS in name
    ensures ValueIn(Setting(name, [])) != Found([])
  {
    var s := Setting(name, []);
    var k :| 0 <= k < |name| && name[k] == EQUALS;
    assert s[k] == EQUALS;
    CutBefore(s, EQUALS, k);
    assert |s[Cut(s, EQUALS) + 1..]| > 0;
  }

  ghost predicate ReadsBack(es: seq<Str>, name: Str) {
    forall value: Str | IsText(value) && |value| < 64 :: Read(Write(es, name, value), name) == Found(value)
  }

  predicate Hidden(es: seq<Str>, name: Str) {
    exists k | 0 <= k < |Delete(es, [name])| :: Contains(Delete(es, [name])[k], name)
  }

  lemma ReadOfWrite(es: seq<Str>, name: Str, value: Str)
    ensures Read(Write(es, name, value), name) ==
              if Hidden(es, name) then Read(Delete(es, [name]), name) else ValueIn(Setting(name, value))
  {
    hide Contains, ValueIn, Read, Delete, Setting;
    ReadNothing(Delete(es, [name]), name);
    ReadLast(Delete(es, [name]), Setting(name, value), name);
    SettingContains(name, value);
  }

  /** Every short value that is written is read back exactly when the name has no equals sign and no surviving
      string contains it. */
  lemma ReadsBackWhen(es: seq<Str>, name: Str)
    ensures ReadsBack(es, name) <==> EQUALS !in name && !Hidden(es, name)
  {
    hide Hidden, Read, Write, Setting, ValueIn, Delete;
    ReadOfWrite(es, name, []);
    ReadOfWrite(es, name, [97]);
    if EQUALS !in name && !Hidden(es, name) {
      forall value: Str | IsText(value) && |value| < 64
        ensures Read(Write(es, name, value), name) == Found(value)
      {
        ReadOfWrite(es, name, value);
        ValueOfSetting(name, value);
      }
    } else {
      var none: Str, one: Str := [], [97];
      assert |none| == 0 && |one| == 1;
      assert IsText(none) && IsText(one);
      if !Hidden(es, name) {
        ValueHidden(name);
      }
      assert Read(Write(es, name, none), name) != Found(none) || Read(Write(es, name, one), name) != Found(one);
    }
  }

  /** A string that holds the name anywhere but at its start survives, and hides what is written later. */
  lemma HiddenBy(es: seq<Str>, name: Str, e: Str)
    requires e in es && Contains(e, name) && !(name <= e)
    ensures Hidden(es, name)
  {
    hide Contains, Hit, Delete;
    HitMore(e, [], name);
    assert [] + [name] == [name];
    DeleteMembers(es, [name], e);
  }

  /** With ab=1 in the environment, b cannot be read back. */
  lemma HiddenByAnother()
    ensures var es, name: Str := [[97, 98, EQUALS, 49]], [98];
            WellFormed(es) && EQUALS !in name && Hidden(es, name) && !ReadsBack(es, name)
  {
    hide Hidden, ReadsBack;
    var e, name: Str := [97, 98, EQUALS, 49], [98];
    assert e[0] != name[0];
    assert StandsAt(e, name, 1);
    HiddenBy([e], name, e);
    ReadsBackWhen([e], name);
  }

  /** A longer value comes back as its first 63 bytes. */
  lemma LongValueIsCut(es: seq<Str>, name: Str, value: Str)
    requires EQUALS !in name && !Hidden(es, name) && |value| >= 64
    ensures Read(Write(es, name, value), name) == Found(value[..63])
  {
    hide Hidden, Read, Write;
    ReadOfWrite(es, name, value);
    ValueOfSetting(name, value);
  }

  // --- many settings at once ---

  /** One write_ubootcfg for each item. */
  function WriteEach(es: seq<Str>, xs: seq<Item>): seq<Str> {
    if xs == [] then es
    else
      var x := xs[|xs| - 1];
      Write(WriteEach(es, xs[..|xs| - 1]), x.name, Value(x))
  }

  /** No later name starts an earlier string. */
  predicate Independent(xs: seq<Item>) {
    forall i, j | 0 <= i < j < |xs| :: !(xs[j].name <= Format(xs[i]))
  }

  lemma {:induction false} DeleteTwice(es: seq<Str>, names: seq<Str>, name: Str)
    ensures Delete(Delete(es, names), [name]) == Delete(es, names + [name])
  {
    if es != [] {
      var front, e := es[..|es| - 1], es[|es| - 1];
      DeleteTwice(front, names, name);
      HitMore(e, names, name);
      var kept := Delete(front, names);
      assert (kept + [e])[..|kept|] == kept;
    }
  }

  lemma HitMore(e: Str, names: seq<Str>, name: Str)
    ensures Hit(e, names + [name]) <==> Hit(e, names) || Hit(e, [name])
    ensures Hit(e, [name]) <==> name <= e
  {
    var more := names + [name];
    if Hit(e, names) {
      var k :| 0 <= k < |names| && names[k] <= e;
      assert more[k] <= e;
    }
    if name <= e {
      assert more[|names|] <= e && [name][0] <= e;
    }
  }

  lemma LastName(xs: seq<Item>)
    requires xs != []
    ensures Names(xs) == Names(xs[..|xs| - 1]) + [xs[|xs| - 1].name]
    ensures FormatAll(xs) == FormatAll(xs[..|xs| - 1]) + [Format(xs[|xs| - 1])]
  {
  }

  /** The old strings and the new ones are thinned out separately. */
  lemma {:induction false} WriteEachSplits(es: seq<Str>, xs: seq<Item>)
    ensures WriteEach(es, xs) == Delete(es, Names(xs)) + WriteEach([], xs)
  {
    if xs == [] {
      NothingDeleted(es, Names(xs));
    } else {
      var front, x := xs[..|xs| - 1], xs[|xs| - 1];
      WriteEachSplits(es, front);
      DeleteConcat(Delete(es, Names(front)), WriteEach([], front), [x.name]);
      DeleteTwice(es, Names(front), x.name);
      LastName(xs);
    }
  }

  /** No string starts with one of the names. */
  predicate NoneHit(es: seq<Str>, names: seq<Str>) {
    forall k | 0 <= k < |es| :: !Hit(es[k], names)
  }

  lemma NoneHitStep(es: seq<Str>, names: seq<Str>)
    requires es != []
    ensures NoneHit(es, names) <==> NoneHit(es[..|es| - 1], names) && !Hit(es[|es| - 1], names)
  {
    hide Hit;
    var front := es[..|es| - 1];
    assert forall k | 0 <= k < |front| :: es[k] == front[k];
  }

  lemma {:induction false} NothingDeleted(es: seq<Str>, names: seq<Str>)
    ensures |Delete(es, names)| <= |es|
    ensures |Delete(es, names)| == |es| <==> NoneHit(es, names)
    ensures |Delete(es, names)| == |es| ==> Delete(es, names) == es
  {
    if es != [] {
      hide Hit, NoneHit;
      NothingDeleted(es[..|es| - 1], names);
      NoneHitStep(es, names);
      assert es == es[..|es| - 1] + [es[|es| - 1]];
    }
  }

  /** No string starts with the name. */
  predicate NoneStarts(es: seq<Str>, name: Str) {
    forall k | 0 <= k < |es| :: !(name <= es[k])
  }

  lemma DeleteOne(es: seq<Str>, name: Str)
    ensures |Delete(es, [name])| <= |es|
    ensures |Delete(es, [name])| == |es| <==> NoneStarts(es, name)
    ensures |Delete(es, [name])| == |es| ==> Delete(es, [name]) == es
  {
    hide Delete, Hit;
    NothingDeleted(es, [name]);
    forall k | 0 <= k < |es| ensures Hit(es[k], [name]) <==> name <= es[k] {
      HitMore(es[k], [], name);
    }
  }

  /** The new strings all stay exactly when the items are independent. */
  lemma {:induction false} AllStay(xs: seq<Item>)
    ensures |WriteEach([], xs)| <= |xs|
    ensures |WriteEach([], xs)| == |xs| <==> Independent(xs)
    ensures |WriteEach([], xs)| == |xs| ==> WriteEach([], xs) == FormatAll(xs)
  {
    if xs != [] {
      hide Hit, Delete, Independent, Format, WriteEach, FormatAll, Names, Write, NoneStarts;
      var front, x := xs[..|xs| - 1], xs[|xs| - 1];
      AllStay(front);
      DeleteOne(WriteEach([], front), x.name);
      LastName(xs);
      LastWrite(xs);
      IndependentStep(xs);
    } else {
      assert Independent(xs);
    }
  }

  lemma LastWrite(xs: seq<Item>)
    requires xs != []
    ensures WriteEach([], xs) == Delete(WriteEach([], xs[..|xs| - 1]), [xs[|xs| - 1].name]) + [Format(xs[|xs| - 1])]
  {
  }

  lemma IndependentStep(xs: seq<Item>)
    requires xs != []
    ensures Independent(xs) <==>
              Independent(xs[..|xs| - 1]) && NoneStarts(FormatAll(xs[..|xs| - 1]), xs[|xs| - 1].name)
  {
    hide Format;
    var front, x := xs[..|xs| - 1], xs[|xs| - 1];
    if Independent(front) && NoneStarts(FormatAll(front), x.name) {
      forall i, j | 0 <= i < j < |xs| ensures !(xs[j].name <= Format(xs[i])) {
        if j < |xs| - 1 {
          assert front[j] == xs[j] && front[i] == xs[i];
        } else {
          assert FormatAll(front)[i] == Format(xs[i]);
        }
      }
    }
    if Independent(xs) {
      forall i, j | 0 <= i < j < |front| ensures !(front[j].name <= Format(front[i])) {
        assert front[j] == xs[j] && front[i] == xs[i];
      }
      forall i | 0 <= i < |front| ensures !(x.name <= FormatAll(front)[i]) {
        assert FormatAll(front)[i] == Format(xs[i]);
      }
    }
  }

  /** Writing many settings at once is writing them one by one exactly when no later name starts an earlier new
      string. */
  lemma MultiIsEach(es: seq<Str>, xs: seq<Item>)
    ensures WriteMulti(es, xs) == WriteEach(es, xs) <==> Independent(xs)
  {
    hide Delete, WriteEach, Independent;
    WriteEachSplits(es, xs);
    AllStay(xs);
    var d, w, f := Delete(es, Names(xs)), WriteEach([], xs), FormatAll(xs);
    assert (d + w)[|d|..] == w && (d + f)[|d|..] == f;
  }

  predicate TextItem(x: Item) {
    IsText(x.name) && (x.value.Some? ==> IsText(x.value.value))
  }

  predicate TextItems(xs: seq<Item>) {
    forall k | 0 <= k < |xs| :: TextItem(xs[k])
  }

  /** Setting a twice at once leaves both strings, one after the other only the second. */
  lemma SetTwice()
    ensures var xs := [Item([97], Some([49])), Item([97], Some([50]))];
            TextItems(xs) && WriteMulti([], xs) != WriteEach([], xs)
  {
    var x, y := Item([97], Some([49])), Item([97], Some([50]));
    var xs := [x, y];
    assert Format(x)[..1] == [97];
    assert xs[1].name <= Format(xs[0]);
    assert !Independent(xs);
    MultiIsEach([], xs);
  }

  /** Settings as they are written in a configuration string. */
  function Render(xs: seq<Item>): Str {
    if xs == [] then []
    else if |xs| == 1 then Format(xs[0])
    else Format(xs[0]) + [SEMICOLON] + Render(xs[1..])
  }

  predicate Plain(x: Item) {
    x.value.Some? && EQUALS !in x.name && SEMICOLON !in x.name && SEMICOLON !in x.value.value
  }

  /** A setting parses to the item it was written from. */
  lemma ItemOfFormat(x: Item)
    requires Plain(x)
    ensures Item(Token(Format(x), EQUALS), Rest(Format(x), EQUALS)) == x
    ensures SEMICOLON !in Format(x)
  {
    hide Cut;
    var s, value := Format(x), x.value.value;
    CutOfSetting(x.name, [EQUALS] + value, EQUALS);
    assert s == x.name + ([EQUALS] + value);
    assert s[|x.name| + 1..] == value;
  }

  lemma FirstToken(s: Str, tail: Str)
    requires SEMICOLON !in s
    ensures Token(s, SEMICOLON) == s && Rest(s, SEMICOLON) == None
    ensures Token(s + [SEMICOLON] + tail, SEMICOLON) == s && Rest(s + [SEMICOLON] + tail, SEMICOLON) == Some(tail)
  {
    hide Cut;
    assert s + [] == s;
    CutOfSetting(s, [], SEMICOLON);
    CutOfSetting(s, [SEMICOLON] + tail, SEMICOLON);
    assert s + ([SEMICOLON] + tail) == s + [SEMICOLON] + tail;
    assert (s + [SEMICOLON] + tail)[|s| + 1..] == tail;
  }

  /** One setting, alone or in front of others. */
  lemma FirstItem(x: Item, tail: Str)
    requires Plain(x) && tail != []
    ensures Items(Format(x)) == [x] && Items(Format(x) + [SEMICOLON] + tail) == [x] + Items(tail)
  {
    hide Format, Token, Rest, Plain, Cut;
    ItemOfFormat(x);
    FirstToken(Format(x), tail);
    FormatSome(x);
  }

  lemma FormatSome(x: Item)
    ensures Format(x) != []
  {
  }

  lemma RenderSome(xs: seq<Item>)
    requires xs != []
    ensures Render(xs) != []
    ensures Render(xs) == if |xs| == 1 then Format(xs[0]) else Format(xs[0]) + [SEMICOLON] + Render(xs[1..])
  {
    FormatSome(xs[0]);
  }

  /** Parsing a configuration string gives back the settings it was made of. */
  lemma {:induction false} ItemsOfRender(xs: seq<Item>)
    requires forall k | 0 <= k < |xs| :: Plain(xs[k])
    ensures Items(Render(xs)) == xs
  {
    if xs != [] {
      hide Format, Items, Plain, Render;
      RenderSome(xs);
      if |xs| == 1 {
        FirstItem(xs[0], [SEMICOLON]);
      } else {
        RenderSome(xs[1..]);
        FirstItem(xs[0], Render(xs[1..]));
        ItemsOfRender(xs[1..]);
        assert xs == [xs[0]] + xs[1..];
      }
    }
  }

  lemma {:induction false} WriteEachWellFormed(es: seq<Str>, xs: seq<Item>)
    requires WellFormed(es) && TextItems(xs)
    ensures WellFormed(WriteEach(es, xs))
  {
    if xs != [] {
      hide WellFormed, TextItem;
      var x := xs[|xs| - 1];
      WriteEachWellFormed(es, xs[..|xs| - 1]);
      assert TextItem(x);
      ValueIsText(x);
      WriteWellFormed(WriteEach(es, xs[..|xs| - 1]), x.name, Value(x));
    }
  }

  lemma ValueIsText(x: Item)
    requires TextItem(x)
    ensures IsText(x.name) && IsText(Value(x))
  {
  }

  lemma WriteMultiWellFormed(es: seq<Str>, xs: seq<Item>)
    requires WellFormed(es) && TextItems(xs)
    ensures WellFormed(WriteMulti(es, xs))
  {
    hide IsText, Delete, Setting;
    DeleteWellFormed(es, Names(xs));
    forall k | 0 <= k < |xs| ensures FormatAll(xs)[k] != [] && IsText(FormatAll(xs)[k]) {
      ValueIsText(xs[k]);
      SettingIsText(xs[k].name, Value(xs[k]));
    }
  }

  /** So the bytes are the same exactly when no later name starts an earlier new string. */
  lemma SameBytes(es: seq<Str>, xs: seq<Item>, base: seq<Byte>)
    requires WellFormed(es) && TextItems(xs)
    requires |Serialize(WriteMulti(es, xs))| <= |base| && |Serialize(WriteEach(es, xs))| <= |base|
    requires Holds(Over(WriteMulti(es, xs), base), WriteMulti(es, xs))
    requires Holds(Over(WriteEach(es, xs), base), WriteEach(es, xs))
    ensures Over(WriteMulti(es, xs), base) == Over(WriteEach(es, xs), base) <==> Independent(xs)
  {
    hide WriteMulti, WriteEach, WellFormed, TextItems, Independent, Holds;
    MultiIsEach(es, xs);
    WriteMultiWellFormed(es, xs);
    WriteEachWellFormed(es, xs);
    var m, e := WriteMulti(es, xs), WriteEach(es, xs);
    if Over(m, base) == Over(e, base) {
      ImageDetermines(m, e, Over(m, base), 0);
    }
  }
}
