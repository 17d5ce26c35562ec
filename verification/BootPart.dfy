/**
  The functions of uboot.c that edit the environment, in the flash partition it is kept in.

  Opening, reading, erasing and writing the partition are taken to succeed.  bootenv.h is
  not part of this model: the size of the data area is that of the partition's contents.
 */
module BootPart {
  import opened Basics
  import opened BootEnv
  import opened Crc32
  import opened Words

  /** The environment's part of the flash: the stored CRC and the data area. */
  class Flash {
    var crc: Word
    var data: seq<Byte>

    predicate Checked()
      reads this
    {
      crc == Crc(0, data)
    }

    /** If the CRC is right, the data area holds these strings and an empty one behind them. */
    ghost predicate Keeps(es: seq<Str>)
      reads this
    {
      Checked() ==> WellFormed(es) && Holds(data, es)
    }
  }

  // --- the C string functions, on the bytes of a buffer ---

  /** strlen(b + i) */
  method StrLen(b: seq<Byte>, i: nat) returns (n: nat)
    requires exists k | i <= k < |b| :: b[k] == 0
    ensures LengthIs(b, i, n)
  {
    n := 0;
    while b[i + n] != 0
      invariant exists k | i + n <= k < |b| :: b[k] == 0
      invariant forall k | i <= k < i + n :: b[k] != 0
      decreases |b| - n
    {
      n := n + 1;
    }
  }

  function Put(b: seq<Byte>, j: nat, s: Str): seq<Byte>
    requires j + |s| < |b|
  {
    b[..j] + s + [0] + b[j + |s| + 1..]
  }

  /** strcpy(b + j, s) */
  method StrCpy(b: array<Byte>, j: nat, s: Str)
    requires j + |s| < b.Length
    modifies b
    ensures b[..] == Put(old(b[..]), j, s)
  {
    forall k | 0 <= k < |s| {
      b[j + k] := s[k];
    }
    b[j + |s|] := 0;
  }

  /** strsep(&s, delim): the token, and what is left after the delimiter */
  method StrSep(s: Str, delim: Byte) returns (token: Str, rest: Option<Str>)
    ensures token == Token(s, delim) && rest == Rest(s, delim)
  {
    var k := 0;
    while k < |s| && s[k] != delim
      invariant k <= |s| && forall i | 0 <= i < k :: s[i] != delim
    {
      k := k + 1;
    }
    CutIs(s, delim, k);
    token := s[..k];
    rest := if k < |s| then Some(s[k + 1..]) else None;
  }

  lemma CutIs(s: Str, delim: Byte, k: nat)
    requires k <= |s| && (forall i | 0 <= i < k :: s[i] != delim) && (k < |s| ==> s[k] == delim)
    ensures Cut(s, delim) == k
  {
    assert s == s[..k] + s[k..];
    CutOfSetting(s[..k], s[k..], delim);
  }

  // --- reading ---

  lemma TerminatorAhead(b: seq<Byte>, es: seq<Str>, t: nat)
    requires Holds(b, es) && t <= |es|
    ensures exists k | Offset(es, t) <= k < |b| :: b[k] == 0
  {
    hide Offset, Holds;
    StringAt(b, es, t);
    if t == |es| {
      assert b[Offset(es, t)] == 0;
    } else {
      assert b[Offset(es, t) + |es[t]|] == 0;
    }
  }

  lemma {:induction false} ReadSettled(es: seq<Str>, t: nat, name: Str)
    requires t <= |es| && Read(es[..t], name) != NotFound
    ensures Read(es, name) == Read(es[..t], name)
    decreases |es| - t
  {
    if t < |es| {
      assert es[..t + 1] == es[..t] + [es[t]];
      ReadLast(es[..t], es[t], name);
      ReadSettled(es, t + 1, name);
    } else {
      assert es[..t] == es;
    }
  }

  /** The flash contents in a buffer of the function's own. */
  method Load(flash: Flash) returns (buf: array<Byte>)
    ensures fresh(buf) && buf[..] == flash.data
  {
    buf := new Byte[|flash.data|](k requires 0 <= k < |flash.data| reads flash => flash.data[k]);
  }

  /** read_ubootcfg; both failures of the source are NULL */
  method ReadUbootCfg(crc: CrcUnit, flash: Flash, name: Str, ghost es: seq<Str>) returns (r: Lookup)
    requires crc.Valid() && flash.Keeps(es)
    modifies crc
    ensures crc.Valid()
    ensures r == if flash.Checked() then Read(es, name) else NotFound
  {
    hide Crc, WellFormed, Holds, Offset, Read, Contains, ValueIn, LengthIs;
    var buf := Load(flash);
    crc.Init();
    assert buf[0..buf.Length] == buf[..];
    var sum := crc.Calc(0, buf, 0, buf.Length);
    crc.Done();
    if sum != flash.crc {
      return NotFound;
    }
    var b := buf[..];
    ghost var t: nat := 0;
    var i: nat := 0;
    StartOfStrings(es);
    ReadNone(name);
    assert es[..t] == [];
    TerminatorAhead(b, es, t);
    var n := StrLen(b, i);
    while n > 0
      invariant crc.Valid()
      invariant t <= |es| && i == Offset(es, t) && LengthIs(b, i, n)
      invariant Read(es[..t], name) == NotFound
      decreases |es| - t
    {
      ScanFinds(b, es, t, n);
      LengthInside(b, i, n);
      var item := b[i..i + n];
      assert es[..t + 1] == es[..t] + [es[t]];
      ReadLast(es[..t], es[t], name);
      if Contains(item, name) {
        ValueIsAnswer(item);
        ReadSettled(es, t + 1, name);
        return ValueIn(item);
      }
      i, t := i + n + 1, t + 1;
      TerminatorAhead(b, es, t);
      n := StrLen(b, i);
    }
    ScanFinds(b, es, t, n);
    assert es[..t] == es;
    r := NotFound;
  }

  lemma StartOfStrings(es: seq<Str>)
    ensures Offset(es, 0) == 0
  {
  }

  lemma ReadNone(name: Str)
    ensures Read([], name) == NotFound
  {
  }

  lemma ValueIsAnswer(e: Str)
    ensures ValueIn(e) != NotFound
  {
  }

  lemma LengthInside(b: seq<Byte>, i: nat, n: nat)
    requires LengthIs(b, i, n)
    ensures i + n < |b|
  {
  }

  // --- editing ---

  lemma PutOver(es: seq<Str>, s: Str, base: seq<Byte>)
    requires |Serialize(es)| + |s| < |base|
    ensures |Serialize(es + [s])| <= |base|
    ensures Put(Over(es, base), |Serialize(es)|, s) == Over(es + [s], base)
  {
    hide Serialize;
    SerializeAppend(es, s);
    var b, j := Over(es, base), |Serialize(es)|;
    assert b[..j] == Serialize(es);
    assert b[j + |s| + 1..] == base[j + |s| + 1..];
  }

  /** A string is written behind those that are there. */
  method Append(buf: array<Byte>, j: nat, s: Str, ghost es: seq<Str>, ghost base: seq<Byte>)
    requires |Serialize(es)| + |s| < buf.Length == |base|
    requires j == |Serialize(es)| && buf[..] == Over(es, base)
    modifies buf
    ensures j + |s| + 1 == |Serialize(es + [s])| <= buf.Length
    ensures buf[..] == Over(es + [s], base)
  {
    hide Serialize, Over, Put;
    PutOver(es, s, base);
    SerializeAppend(es, s);
    StrCpy(buf, j, s);
  }

  /** Move the strings out of the data area: p is the copy, and the area is cleared. */
  method TakeStrings(buf: array<Byte>, ghost es: seq<Str>) returns (p: seq<Byte>)
    requires WellFormed(es) && Holds(buf[..], es)
    modifies buf
    ensures p == Serialize(es) + [0] && |p| <= buf.Length
    ensures buf[..] == Cleared(old(buf[..]), es)
  {
    hide WellFormed, Serialize, LengthIs;
    var b := buf[..];
    ghost var t: nat := 0;
    var i: nat := 0;
    StartOfStrings(es);
    TerminatorAhead(b, es, t);
    var n := StrLen(b, i);
    while n > 0
      invariant t <= |es| && i == Offset(es, t) && LengthIs(b, i, n)
      invariant buf[..] == b
      decreases |es| - t
    {
      ScanFinds(b, es, t, n);
      i, t := i + n + 1, t + 1;
      TerminatorAhead(b, es, t);
      n := StrLen(b, i);
    }
    ScanFinds(b, es, t, n);
    assert es[..t] == es;
    p := b[..i + 1];
    forall k | 0 <= k < i + 1 {
      buf[k] := 0;
    }
    assert buf[..] == Zeros(i + 1) + b[i + 1..];
  }

  /** The first loop of write_ubootcfg: copy the strings that do not start with the name. */
  method CopyOthers(buf: array<Byte>, p: seq<Byte>, name: Str, ghost es: seq<Str>, ghost base: seq<Byte>)
    returns (j: nat)
    requires WellFormed(es) && p == Serialize(es) + [0] && |Serialize(es)| < buf.Length
    requires buf[..] == base
    modifies buf
    ensures j == |Serialize(Delete(es, [name]))| < buf.Length
    ensures buf[..] == Over(Delete(es, [name]), base)
  {
    hide WellFormed, Serialize, LengthIs, Over, Delete, Hit, Offset;
    ghost var t: nat := 0;
    var i: nat := 0;
    StartOfStrings(es);
    NothingToDelete(es, [name]);
    OverNothing(base);
    j := 0;
    ghost var kept: seq<Str> := [];
    TerminatorAhead(p, es, t);
    var n := StrLen(p, i);
    while n > 0
      invariant t <= |es| && i == Offset(es, t) && LengthIs(p, i, n)
      invariant kept == Delete(es[..t], [name]) && j == |Serialize(kept)| <= i < buf.Length
      invariant buf[..] == Over(kept, base)
      decreases |es| - t
    {
      ScanFinds(p, es, t, n);
      LengthInside(p, i, n);
      var item := p[i..i + n];
      DeleteStep(es, t, [name]);
      HitMore(item, [], name);
      StringAt(p, es, t + 1);
      if !(name <= item) {
        Append(buf, j, item, kept, base);
        kept := kept + [item];
        j := j + n + 1;
      }
      i, t := i + n + 1, t + 1;
      TerminatorAhead(p, es, t);
      n := StrLen(p, i);
    }
    ScanFinds(p, es, t, n);
    assert es[..t] == es;
  }

  lemma NothingToDelete(es: seq<Str>, names: seq<Str>)
    ensures es[..0] == [] && Delete([], names) == [] && Serialize([]) == []
  {
  }

  lemma OverNothing(base: seq<Byte>)
    ensures |Serialize([])| == 0 && Over([], base) == base
  {
  }

  /** write_ubootcfg, for a setting that fits into the data area */
  method WriteUbootCfg(crc: CrcUnit, flash: Flash, name: Str, value: Str, ghost es: seq<Str>) returns (r: int)
    requires crc.Valid() && flash.Keeps(es) && IsText(name) && IsText(value)
    requires flash.Checked() ==> |Serialize(Write(es, name, value))| <= |flash.data|
    modifies crc, flash
    ensures crc.Valid()
    ensures !old(flash.Checked()) ==> r == -1 && unchanged(flash)
    ensures old(flash.Checked()) ==>
              && r == 0 && flash.Checked() && |flash.data| == old(|flash.data|)
              && flash.data == Over(Write(es, name, value), Cleared(old(flash.data), es))
              && (flash.Keeps(Write(es, name, value)) <==> EndsInZero(old(flash.data), es, Write(es, name, value)))
  {
    hide Crc, Over, Cleared, WellFormed, Holds, EndsInZero, Serialize, Delete, Setting, IsText;
    var buf := Load(flash);
    crc.Init();
    assert buf[0..buf.Length] == buf[..];
    var sum := crc.Calc(0, buf, 0, buf.Length);
    if sum != flash.crc {
      return -1;
    }
    var p := TakeStrings(buf, es);
    ghost var base := buf[..];
    var j := CopyOthers(buf, p, name, es, base);
    SerializeAppend(Delete(es, [name]), Setting(name, value));
    Append(buf, j, Setting(name, value), Delete(es, [name]), base);
    assert buf[0..buf.Length] == buf[..];
    sum := crc.Calc(0, buf, 0, buf.Length);
    crc.Done();
    WriteWellFormed(es, name, value);
    OverHolds(flash.data, es, Write(es, name, value));
    flash.crc := sum;
    flash.data := buf[..];
    r := 0;
  }

  // --- many settings at once ---

  function FirstItem(s: Str): Item {
    var token := Token(s, SEMICOLON);
    Item(Token(token, EQUALS), Rest(token, EQUALS))
  }

  function ItemsAfter(rest: Option<Str>): seq<Item> {
    if rest.Some? then Items(rest.value) else []
  }

  lemma FirstOfItems(s: Str)
    requires s != []
    ensures Items(s) == [FirstItem(s)] + ItemsAfter(Rest(s, SEMICOLON))
    ensures Rest(s, SEMICOLON).Some? ==> |Rest(s, SEMICOLON).value| < |s|
  {
    hide Cut;
  }

  lemma NextItem(s: Str, done: seq<Item>, all: seq<Item>)
    requires s != [] && all == done + Items(s)
    ensures |done| < |all| && all[|done|] == FirstItem(s)
    ensures all == done + [FirstItem(s)] + ItemsAfter(Rest(s, SEMICOLON))
    ensures Rest(s, SEMICOLON).Some? ==> |Rest(s, SEMICOLON).value| < |s|
  {
    hide Items, FirstItem, ItemsAfter, Rest;
    FirstOfItems(s);
  }

  lemma HitAmong(e: Str, xs: seq<Item>, x: Item)
    ensures Hit(e, Names(xs + [x])) <==> Hit(e, Names(xs)) || x.name <= e
  {
    HitMore(e, Names(xs), x.name);
    assert Names(xs + [x]) == Names(xs) + [x.name];
  }

  lemma {:induction false} HitStays(e: Str, xs: seq<Item>, k: nat)
    requires k < |xs| && xs[k].name <= e
    ensures Hit(e, Names(xs))
  {
    assert Names(xs)[k] <= e;
  }

  lemma NoNames(e: Str)
    ensures !Hit(e, Names([]))
  {
  }

  /** The inner loop of write_multi_ubootcfg: is the string to be replaced? */
  method Mentioned(cfg: Str, item: Str) returns (found: bool)
    ensures found == Hit(item, Names(Items(cfg)))
  {
    hide Items, Token, Rest, Hit, Names;
    found := false;
    var tmpcfg := Some(cfg);
    ghost var all, done := Items(cfg), [];
    NoNames(item);
    NoItems();
    while tmpcfg.Some? && tmpcfg.value != []
      invariant all == done + ItemsAfter(tmpcfg)
      invariant !Hit(item, Names(done)) && !found
      decreases if tmpcfg.Some? then |tmpcfg.value| + 1 else 0
    {
      NextItem(tmpcfg.value, done, all);
      var pval, rest := StrSep(tmpcfg.value, SEMICOLON);
      var pvar, value := StrSep(pval, EQUALS);
      if pvar <= item {
        HitStays(item, all, |done|);
        found := true;
        break;
      }
      HitAmong(item, done, Item(pvar, value));
      done := done + [Item(pvar, value)];
      tmpcfg := rest;
    }
    if !found {
      assert done == all;
    }
  }

  lemma NoItems()
    ensures Items([]) == []
  {
  }

  /** The second loop of write_multi_ubootcfg: copy the strings that are not to be replaced. */
  method CopyUnmentioned(buf: array<Byte>, p: seq<Byte>, cfg: Str, ghost es: seq<Str>, ghost base: seq<Byte>)
    returns (j: nat)
    requires WellFormed(es) && p == Serialize(es) + [0] && |Serialize(es)| < buf.Length
    requires buf[..] == base
    modifies buf
    ensures j == |Serialize(Delete(es, Names(Items(cfg))))| < buf.Length
    ensures buf[..] == Over(Delete(es, Names(Items(cfg))), base)
  {
    hide WellFormed, Serialize, LengthIs, Over, Delete, Hit, Offset, Names, Items;
    ghost var t, names := 0 as nat, Names(Items(cfg));
    var i: nat := 0;
    StartOfStrings(es);
    NothingToDelete(es, names);
    OverNothing(base);
    j := 0;
    ghost var kept: seq<Str> := [];
    TerminatorAhead(p, es, t);
    var n := StrLen(p, i);
    while n > 0
      invariant t <= |es| && i == Offset(es, t) && LengthIs(p, i, n)
      invariant kept == Delete(es[..t], names) && j == |Serialize(kept)| <= i < buf.Length
      invariant buf[..] == Over(kept, base)
      decreases |es| - t
    {
      ScanFinds(p, es, t, n);
      LengthInside(p, i, n);
      var item := p[i..i + n];
      DeleteStep(es, t, names);
      StringAt(p, es, t + 1);
      var found := Mentioned(cfg, item);
      if !found {
        Append(buf, j, item, kept, base);
        kept := kept + [item];
        j := j + n + 1;
      }
      i, t := i + n + 1, t + 1;
      TerminatorAhead(p, es, t);
      n := StrLen(p, i);
    }
    ScanFinds(p, es, t, n);
    assert es[..t] == es;
  }

  lemma {:induction false} SerializeConcat(a: seq<Str>, b: seq<Str>)
    ensures Serialize(a + b) == Serialize(a) + Serialize(b)
  {
    if b == [] {
      assert a + b == a;
    } else {
      assert (a + b)[..|a + b| - 1] == a + b[..|b| - 1];
      SerializeConcat(a, b[..|b| - 1]);
    }
  }

  lemma FormatNext(kept: seq<Str>, all: seq<Item>, done: seq<Item>, x: Item, more: seq<Item>)
    requires all == done + [x] + more
    ensures kept + FormatAll(done + [x]) == kept + FormatAll(done) + [Format(x)]
    ensures |Serialize(kept + FormatAll(done) + [Format(x)])| <= |Serialize(kept + FormatAll(all))|
  {
    hide Format, Serialize;
    assert FormatAll(all) == FormatAll(done) + [Format(x)] + FormatAll(more);
    SerializeConcat(kept + FormatAll(done) + [Format(x)], FormatAll(more));
    assert kept + FormatAll(done) + [Format(x)] + FormatAll(more) == kept + FormatAll(all);
  }

  /** The last loop of write_multi_ubootcfg: append the new strings. */
  method AppendItems(buf: array<Byte>, j0: nat, cfg: Str, ghost kept: seq<Str>, ghost base: seq<Byte>)
    requires |Serialize(kept)| == j0 && |Serialize(kept + FormatAll(Items(cfg)))| <= buf.Length == |base|
    requires j0 <= buf.Length && buf[..] == Over(kept, base)
    modifies buf
    ensures |Serialize(kept + FormatAll(Items(cfg)))| <= buf.Length
    ensures buf[..] == Over(kept + FormatAll(Items(cfg)), base)
  {
    hide Items, Token, Rest, FormatAll, Serialize, Over;
    var j, cfgbuf := j0, Some(cfg);
    ghost var all, done := Items(cfg), [];
    ghost var es := kept;
    NoItems();
    NoFormats(kept);
    while cfgbuf.Some? && cfgbuf.value != []
      invariant all == done + ItemsAfter(cfgbuf)
      invariant es == kept + FormatAll(done) && j == |Serialize(es)| <= buf.Length
      invariant buf[..] == Over(es, base)
      decreases if cfgbuf.Some? then |cfgbuf.value| + 1 else 0
    {
      NextItem(cfgbuf.value, done, all);
      var pval, rest := StrSep(cfgbuf.value, SEMICOLON);
      var pvar, value := StrSep(pval, EQUALS);
      var x := Item(pvar, value);
      FormatNext(kept, all, done, x, ItemsAfter(rest));
      SerializeAppend(es, Format(x));
      Append(buf, j, Format(x), es, base);
      j := j + |Format(x)| + 1;
      es, done := es + [Format(x)], done + [x];
      cfgbuf := rest;
    }
    assert done == all;
  }

  lemma NoFormats(kept: seq<Str>)
    ensures kept + FormatAll([]) == kept
  {
  }

  /** write_multi_ubootcfg, for settings that fit into the data area and into the 512 bytes of tmpbuf */
  method WriteMultiUbootCfg(crc: CrcUnit, flash: Flash, cfg: Str, ghost es: seq<Str>) returns (r: int)
    requires crc.Valid() && flash.Keeps(es) && IsText(cfg)
    requires |cfg| < 512 && forall x | x in Items(cfg) :: |Format(x)| < 512
    requires flash.Checked() ==> |Serialize(WriteMulti(es, Items(cfg)))| <= |flash.data|
    modifies crc, flash
    ensures crc.Valid()
    ensures !old(flash.Checked()) ==> r == -1 && unchanged(flash)
    ensures old(flash.Checked()) ==>
              && r == 0 && flash.Checked() && |flash.data| == old(|flash.data|)
              && flash.data == Over(WriteMulti(es, Items(cfg)), Cleared(old(flash.data), es))
              && (flash.Keeps(WriteMulti(es, Items(cfg))) <==>
                  EndsInZero(old(flash.data), es, WriteMulti(es, Items(cfg))))
  {
    hide Crc, Over, Cleared, WellFormed, Holds, EndsInZero, Serialize, Delete, Format, IsText, Items, Names;
    hide FormatAll, TextItems;
    var buf := Load(flash);
    crc.Init();
    assert buf[0..buf.Length] == buf[..];
    var sum := crc.Calc(0, buf, 0, buf.Length);
    if sum != flash.crc {
      return -1;
    }
    var p := TakeStrings(buf, es);
    ghost var base := buf[..];
    var j := CopyUnmentioned(buf, p, cfg, es, base);
    AppendItems(buf, j, cfg, Delete(es, Names(Items(cfg))), base);
    assert buf[0..buf.Length] == buf[..];
    sum := crc.Calc(0, buf, 0, buf.Length);
    crc.Done();
    ItemsAreText(cfg);
    WriteMultiWellFormed(es, Items(cfg));
    OverHolds(flash.data, es, WriteMulti(es, Items(cfg)));
    flash.crc := sum;
    flash.data := buf[..];
    r := 0;
  }

  lemma {:induction false} ItemsAreText(s: Str)
    requires IsText(s)
    ensures TextItems(Items(s))
    decreases |s|
  {
    if s != [] {
      hide Cut, Items, TextItem, Token, Rest, IsText;
      FirstOfItems(s);
      FirstItemIsText(s);
      if Rest(s, SEMICOLON).Some? {
        ItemsAreText(Rest(s, SEMICOLON).value);
      }
    } else {
      NoItems();
    }
  }

  lemma PiecesAreText(s: Str, delim: Byte)
    requires IsText(s)
    ensures IsText(Token(s, delim))
    ensures Rest(s, delim).Some? ==> IsText(Rest(s, delim).value)
  {
  }

  lemma FirstItemIsText(s: Str)
    requires IsText(s)
    ensures TextItem(FirstItem(s))
    ensures Rest(s, SEMICOLON).Some? ==> IsText(Rest(s, SEMICOLON).value)
  {
    hide IsText, Token, Rest;
    PiecesAreText(s, SEMICOLON);
    PiecesAreText(Token(s, SEMICOLON), EQUALS);
  }
}
