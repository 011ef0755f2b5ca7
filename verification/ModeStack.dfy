// The mode stacker as the C code has it: one record of text buffers and counters, updated in
// place, with the MODE line built in a 512-byte buffer (libathemecore/cmode.c:388-781).
module ModeStack {
  import opened Basics
  import opened CaseMap
  import opened Text
  import opened ChannelModes
  import opened PendingModes
  import opened ModeLine
  import opened StackRuns

  // mowgli_strlcpy into room bytes
  function Copied(src: string, room: int): string
    requires room > 0
  {
    if |src| < room then src else src[..room - 1]
  }

  // flags_to_string()
  method FlagsToString(t: Tables, flags: Flags) returns (s: string)
    requires t.Valid()
    ensures s == FlagLetters(t, flags, 0)
  {
    s := "";
    var i := 0;
    while i < |t.simple|
      invariant i <= |t.simple|
      invariant s + FlagLetters(t, flags, i) == FlagLetters(t, flags, 0)
    {
      if t.simpleValue[i] in flags {
        s := s + [t.simple[i]];
      }
      i := i + 1;
    }
  }

  function Blanks(s: string): nat {
    if s == "" then 0 else (if s[0] == ' ' then 1 else 0) + Blanks(s[1..])
  }

  lemma {:induction false} BlanksAppend(a: string, b: string)
    ensures Blanks(a + b) == Blanks(a) + Blanks(b)
  {
    if a == "" {
      assert a + b == b;
    } else {
      assert (a + b)[1..] == a[1..] + b;
      BlanksAppend(a[1..], b);
    }
  }

  lemma {:induction false} BlanksNone(s: string)
    requires ' ' !in s
    ensures Blanks(s) == 0
  {
    if s != "" {
      assert s[0] in s;
      BlanksNone(s[1..]);
    }
  }

  // Counting the spaces of md->params counts the parameters.
  lemma {:induction false} BlanksCount(vs: seq<string>)
    requires forall v <- vs :: IsWord(v)
    ensures Blanks(Spaced(vs)) == |vs|
  {
    if vs != [] {
      assert vs[0] in vs;
      assert Spaced(vs) == " " + vs[0] + Spaced(vs[1..]);
      BlanksAppend(" " + vs[0], Spaced(vs[1..]));
      BlanksAppend(" ", vs[0]);
      assert " "[1..] == "";
      BlanksNone(vs[0]);
      BlanksCount(vs[1..]);
    }
  }

  // Letters of md->pmodes that are not signs.
  function Unsigned(s: string): nat {
    if s == "" then 0 else (if s[0] == '+' || s[0] == '-' then 0 else 1) + Unsigned(s[1..])
  }

  // The direction md->pmodes ends in.
  function DirAfter(s: string, d: Dir): Dir {
    if s == "" then d
    else DirAfter(s[1..], if s[0] == '+' then Add else if s[0] == '-' then Del else d)
  }

  lemma ScanAppend(a: string, b: string, d: Dir)
    requires |a| <= 2
    ensures Unsigned(a + b) == Unsigned(a) + Unsigned(b)
    ensures DirAfter(a + b, d) == DirAfter(b, DirAfter(a, d))
  {
    if a == "" {
      assert a + b == b;
    } else {
      assert (a + b)[1..] == a[1..] + b;
      ScanAppend(a[1..], b, if a[0] == '+' then Add else if a[0] == '-' then Del else d);
    }
  }

  lemma ScanOne(t: Tables, it: Item, d: Dir)
    requires t.Valid() && ValidItem(t, it)
    ensures Unsigned(OneItem(it, d)) == 1 && DirAfter(OneItem(it, d), d) == it.dir
    ensures 'k' in OneItem(it, d) <==> it.kind == 'k'
  {
    assert '+' in "+- " && '-' in "+- ";
    assert it.kind != '+' && it.kind != '-';
    var one := [it.kind];
    assert one[1..] == "";
    assert Unsigned(one) == 1 && DirAfter(one, it.dir) == it.dir;
    assert [Sign(it.dir), it.kind][1..] == one;
  }

  // Scanning md->pmodes finds the number of parameter modes, the last direction and a key change.
  lemma {:induction false} ScanItems(t: Tables, items: seq<Item>, d: Dir)
    requires t.Valid() && (forall it <- items :: ValidItem(t, it))
    ensures Unsigned(ItemLetters(items, d)) == |items|
    ensures DirAfter(ItemLetters(items, d), d) == if items == [] then d else LastItemDir(items)
    ensures 'k' in ItemLetters(items, d) <==> HasKey(items)
  {
    if items != [] {
      var it, rest := items[0], items[1..];
      assert it in items;
      ScanItems(t, rest, it.dir);
      ScanOne(t, it, d);
      ItemLettersFirst(items, d);
      ScanAppend(OneItem(it, d), ItemLetters(rest, it.dir), d);
      assert items == [it] + rest;
    }
  }

  // The ext modes that are in use.
  function ExtOf(texts: seq<string>, used: seq<bool>): (ext: seq<Option<string>>)
    requires |texts| == |used|
    ensures |ext| == |texts|
    ensures forall i :: 0 <= i < |ext| ==> ext[i] == if used[i] then Some(texts[i]) else None
  {
    seq(|texts|, i requires 0 <= i < |texts| == |used| => if used[i] then Some(texts[i]) else None)
  }

  // How many ext modes are in use, and how much room their values take.
  method ExtLengths(texts: seq<string>, used: seq<bool>) returns (count: nat, size: nat)
    requires |texts| == |used|
    ensures count == UsedExt(ExtOf(texts, used), 0)
    ensures size == |Spaced(ExtValues(ExtOf(texts, used), 0))|
  {
    ghost var ext := ExtOf(texts, used);
    count, size := 0, 0;
    var i := 0;
    while i < |texts|
      invariant i <= |texts|
      invariant count + UsedExt(ext, i) == UsedExt(ext, 0)
      invariant size + |Spaced(ExtValues(ext, i))| == |Spaced(ExtValues(ext, 0))|
    {
      SpacedSize(ext, i);
      if used[i] {
        count := count + 1;
        if texts[i] != "" {
          size := size + 1 + |texts[i]|;
        }
      }
      i := i + 1;
    }
  }

  method CountBlanks(params: string) returns (n: nat)
    ensures n == Blanks(params)
  {
    n := 0;
    var p := 0;
    while p < |params|
      invariant p <= |params|
      invariant n + Blanks(params[p..]) == Blanks(params)
    {
      assert params[p..][1..] == params[p + 1..];
      if params[p] == ' ' {
        n := n + 1;
      }
      p := p + 1;
    }
  }

  // The removals (dir == Del) or the settings (dir == Add) of the line, behind what buf holds.
  method PutPart(t: Tables, ghost p: Pending, flags: Flags, limited: bool, texts: seq<string>, used: seq<bool>,
                 buf: string, dir0: Dir, dir: Dir)
    returns (buf': string, dir': Dir)
    requires t.Valid() && ValidPending(t, p) && dir != Nul && dir0 != dir
    requires flags == if dir == Add then p.on else p.off
    requires limited <==> LimitLetter(p, dir) != ""
    requires |texts| == |used| && p.ext == ExtOf(texts, used)
    requires |buf| + 1 + 30 + 1 + |ExtLetters(t, p.ext, dir, 0)| < BUFLEN
    ensures buf' == buf + SignedPart(t, p, dir)
    ensures dir' == if Signed(t, p, dir) then dir else dir0
  {
    buf', dir' := buf, dir0;
    if flags != {} {
      dir', buf' := dir, buf' + [Sign(dir)];
      var letters := FlagsToString(t, flags);
      FlagLettersFew(t, p.on, p.off);
      buf' := buf' + Copied(letters, BUFLEN - |buf'|);
    } else {
      NoFlagLetters(t, 0);
    }
    if limited {
      if dir' != dir {
        dir', buf' := dir, buf' + [Sign(dir)];
      }
      buf' := buf' + "l";
    }
    ghost var front := buf + [Sign(dir)] + FlagLetters(t, flags, 0) + LimitLetter(p, dir);
    assert dir' == dir ==> buf' == front;
    buf', dir' := PutExts(t, p.ext, texts, used, front, buf', dir', dir);
    assert front + ExtLetters(t, p.ext, dir, 0) == buf + ([Sign(dir)] + Part(t, p, dir));
  }

  // The ext mode letters; front is what stands before them once the sign has been written.
  method PutExts(t: Tables, ghost ext: seq<Option<string>>, texts: seq<string>, used: seq<bool>, ghost front: string,
                 buf: string, dir0: Dir, dir: Dir)
    returns (buf': string, dir': Dir)
    requires |texts| == |used| == |t.ext| && ext == ExtOf(texts, used) && dir != Nul
    requires dir0 == dir ==> buf == front
    requires dir0 != dir ==> front == buf + [Sign(dir)]
    ensures dir' == if dir0 == dir || ExtLetters(t, ext, dir, 0) != "" then dir else dir0
    ensures buf' == if dir' == dir then front + ExtLetters(t, ext, dir, 0) else buf
  {
    buf', dir' := buf, dir0;
    var i := 0;
    while i < |t.ext|
      invariant i <= |t.ext|
      invariant dir' == dir || (dir' == dir0 && buf' == buf && ExtLetters(t, ext, dir, i) == ExtLetters(t, ext, dir, 0))
      invariant dir' == dir ==> buf' + ExtLetters(t, ext, dir, i) == front + ExtLetters(t, ext, dir, 0)
      invariant dir' == dir && dir0 != dir ==> ExtLetters(t, ext, dir, 0) != ""
    {
      if used[i] && (dir == Add <==> texts[i] != "") {
        if dir' != dir {
          dir', buf' := dir, buf' + [Sign(dir)];
        }
        buf' := buf' + [t.ext[i]];
      }
      i := i + 1;
    }
  }

  // The ext mode values, behind what buf holds.
  method PutExtValues(ghost ext: seq<Option<string>>, texts: seq<string>, used: seq<bool>, buf: string) returns (buf': string)
    requires |texts| == |used| && ext == ExtOf(texts, used)
    requires |buf| + |Spaced(ExtValues(ext, 0))| < BUFLEN
    ensures buf' == buf + Spaced(ExtValues(ext, 0))
  {
    buf' := buf;
    var i := 0;
    while i < |texts|
      invariant i <= |texts|
      invariant buf' + Spaced(ExtValues(ext, i)) == buf + Spaced(ExtValues(ext, 0))
    {
      if used[i] && texts[i] != "" {
        assert Spaced(ExtValues(ext, i)) == " " + texts[i] + Spaced(ExtValues(ext, i + 1)) by {
          assert ExtValues(ext, i)[1..] == ExtValues(ext, i + 1);
        }
        assert |buf' + Spaced(ExtValues(ext, i))| < BUFLEN;
        buf' := buf' + Copied(" " + texts[i], BUFLEN - |buf'|);
      }
      i := i + 1;
    }
  }

  lemma SpacedValues(p: Pending)
    ensures Spaced(Values(p)) == Spaced(LimitValues(p)) + Spaced(ExtValues(p.ext, 0)) + Spaced(ItemValues(p.items))
    ensures Spaced(LimitValues(p)) == LimitText(if p.limit.Some? then p.limit.value else 0)
  {
    SpacedAppend(LimitValues(p) + ExtValues(p.ext, 0), ItemValues(p.items));
    SpacedAppend(LimitValues(p), ExtValues(p.ext, 0));
    assert LimitValues(p) != [] ==> LimitValues(p)[1..] == [];
  }

  function LimitText(limit: nat): string {
    if limit != 0 then " " + Decimal(limit) else ""
  }

  lemma LineInPieces(t: Tables, p: Pending)
    requires t.Valid() && ValidPending(t, p)
    ensures LineText(t, p) == Letters(t, p) + LimitText(if p.limit.Some? then p.limit.value else 0)
                              + Spaced(ExtValues(p.ext, 0)) + Spaced(ItemValues(p.items))
  {
    SpacedValues(p);
  }

  // The parameters of the line, in the same order as the letters.
  method PutValues(ghost ext: seq<Option<string>>, limit: nat, texts: seq<string>, used: seq<bool>, params: string, letters: string)
    returns (buf: string)
    requires |texts| == |used| && ext == ExtOf(texts, used)
    requires |letters| + |LimitText(limit)| + |Spaced(ExtValues(ext, 0))| + |params| < BUFLEN
    ensures buf == letters + LimitText(limit) + Spaced(ExtValues(ext, 0)) + params
  {
    buf := letters;
    if limit != 0 {
      buf := buf + Copied(" " + Decimal(limit), BUFLEN - |buf|);
    }
    buf := PutExtValues(ext, texts, used, buf);
    if params != "" {
      buf := buf + Copied(params, BUFLEN - |buf|);
    }
  }

  method ClearExts(t: Tables, texts: seq<string>, used: seq<bool>) returns (texts': seq<string>, used': seq<bool>)
    requires |texts| == |used| == |t.ext|
    ensures |texts'| == |used'| == |t.ext| && ExtOf(texts', used') == Nothing(t).ext
  {
    texts', used' := texts, used;
    var i := 0;
    while i < |used'|
      invariant i <= |used'| == |texts'| == |t.ext|
      invariant forall j :: 0 <= j < i ==> !used'[j]
    {
      used', texts' := used'[i := false], texts'[i := ""];
      i := i + 1;
    }
  }

  // The letters of the line, with the sign of pmodes left out where it would repeat.
  method PutLetters(t: Tables, ghost st: Stack, off: Flags, on: Flags, limitused: bool, limit: nat,
                    texts: seq<string>, used: seq<bool>, pmodes: string)
    returns (buf: string)
    requires t.Valid() && Ok(t, st) && st.batch.off == off && st.batch.on == on
    requires |texts| == |used| && st.batch.ext == ExtOf(texts, used)
    requires st.batch.limit == if limitused then Some(limit) else None
    requires pmodes == ItemLetters(st.batch.items, Nul)
    ensures buf == Letters(t, st.batch)
  {
    ghost var p := st.batch;
    LettersRoom(t, st);
    var dir;
    buf, dir := PutPart(t, p, off, limitused && limit == 0, texts, used, "", Nul, Del);
    buf, dir := PutPart(t, p, on, limitused && limit != 0, texts, used, buf, dir, Add);
    var skip := if pmodes != "" && ((dir == Add && pmodes[0] == '+') || (dir == Del && pmodes[0] == '-')) then 1 else 0;
    SkipSign(t, p.items, dir);
    assert buf == SignedPart(t, p, Del) + SignedPart(t, p, Add) && dir == LastDir(t, p);
    assert pmodes[skip..] == ItemLetters(p.items, dir);
    buf := buf + Copied(pmodes[skip..], BUFLEN - |buf|);
  }

  lemma LettersRoom(t: Tables, st: Stack)
    requires t.Valid() && Ok(t, st)
    ensures |Letters(t, st.batch)| < BUFLEN
    ensures Letters(t, st.batch)
         == (SignedPart(t, st.batch, Del) + SignedPart(t, st.batch, Add)) + ItemLetters(st.batch.items, LastDir(t, st.batch))
    ensures 1 + 30 + 1 + |ExtLetters(t, st.batch.ext, Del, 0)| < BUFLEN
    ensures |SignedPart(t, st.batch, Del)| + 1 + 30 + 1 + |ExtLetters(t, st.batch.ext, Add, 0)| < BUFLEN
  {
    LettersLength(t, st);
    ExtLettersCount(t, st.batch.ext, 0);
    FlagLettersFew(t, st.batch.on, st.batch.off);
  }

  lemma SkipSign(t: Tables, items: seq<Item>, d: Dir)
    requires forall it <- items :: ValidItem(t, it)
    ensures var s := ItemLetters(items, Nul);
            var skip := if s != "" && ((d == Add && s[0] == '+') || (d == Del && s[0] == '-')) then 1 else 0;
            s[skip..] == ItemLetters(items, d)
  {
    forall it <- items ensures it.dir != Nul {
      assert ValidItem(t, it);
    }
    ItemLettersSign(items, d);
    if items != [] {
      assert items[0] in items;
    }
  }

  class Stacker {
    const t: Tables
    const mapping: Mapping
    // the fields of modestackdata
    var source: string
    var channel: Option<string>
    var modesOn: Flags
    var modesOff: Flags
    var limit: nat
    var extmodes: seq<string>
    var limitused: bool
    var extmodesused: seq<bool>
    var pmodes: string
    var params: string
    var totalparamslen: nat
    var totallen: nat
    var paramcount: nat
    // what mode_sts() has been handed
    var sent: seq<Line>
    // the parameter modes that pmodes and params spell
    ghost var items: seq<Item>

    ghost function Batch(): Pending
      reads this
      requires |extmodes| == |extmodesused|
    {
      Pending(modesOn, modesOff, if limitused then Some(limit) else None, ExtOf(extmodes, extmodesused), items)
    }

    ghost function State(): Stack
      reads this
      requires |extmodes| == |extmodesused|
    {
      Stack(source, channel, Batch())
    }

    // The text buffers spell the batch, and the batch keeps its limits.
    ghost predicate Spelled()
      reads this
    {
      && t.Valid()
      && |extmodes| == |extmodesused| == |t.ext|
      && Ok(t, State())
      && pmodes == ItemLetters(items, Nul)
      && params == Spaced(ItemValues(items))
    }

    ghost predicate Valid()
      reads this
    {
      Spelled() && totalparamslen <= ParamSize(Batch())
    }

    constructor (t: Tables, mapping: Mapping)
      requires t.Valid()
      ensures Valid() && State() == Start(t) && sent == [] && this.t == t && this.mapping == mapping
    {
      this.t := t;
      this.mapping := mapping;
      source, channel, sent := "", None, [];
      modesOn, modesOff, limit, limitused := {}, {}, 0, false;
      extmodes := seq(|t.ext|, _ => "");
      extmodesused := seq(|t.ext|, _ => false);
      pmodes, params, totalparamslen, totallen, paramcount := "", "", 0, 0, 0;
      items := [];
      new;
      assert Batch() == Nothing(t);
      NothingOk(t, State());
    }

    // modestack_calclen()
    method CalcLen()
      requires Spelled() && channel.Some?
      modifies this`totallen, this`totalparamslen, this`paramcount
      ensures Valid()
      ensures totalparamslen == ParamSize(Batch()) && paramcount == Count(Batch())
      ensures totallen == TotalLen(source, channel.value, Batch())
    {
      var used, size := ExtLengths(extmodes, extmodesused);
      var blanks := CountBlanks(params);
      ItemValuesAreWords(t, items);
      BlanksCount(ItemValues(items));
      ItemValuesCount(items);
      paramcount := (if limitused then 1 else 0) + used + blanks;
      totalparamslen := (if limitused && limit != 0 then 11 else 0) + size + |params|;
      totallen := |source| + USERLEN + HOSTLEN + 1 + 4 + 1 + 10 + |channel.value| + 1 + 2 + 32 + |pmodes| + totalparamslen;
    }

    // modestack_clear()
    method Clear()
      requires t.Valid() && |extmodes| == |extmodesused| == |t.ext| && |source| < HOSTLEN
      modifies this
      ensures Valid() && State() == Stack(old(source), old(channel), Nothing(t)) && sent == old(sent)
      ensures totallen == 0 && paramcount == 0
    {
      var texts, used := ClearExts(t, extmodes, extmodesused);
      ghost var cleared := Stack(source, channel, Nothing(t));
      NothingOk(t, cleared);
      modesOn, modesOff, limitused := {}, {}, false;
      extmodes, extmodesused := texts, used;
      pmodes, params, totallen, totalparamslen, paramcount := "", "", 0, 0, 0;
      items := [];
      assert Batch() == Nothing(t);
      assert State() == cleared;
    }

    // modestack_flush()
    method Flush()
      requires Valid()
      modifies this
      ensures Valid()
      ensures State() == Flushed(t, old(State()))
      ensures sent == old(sent) + FlushLines(t, old(State()))
    {
      ghost var st := State();
      var buf := PutLetters(t, st, modesOff, modesOn, limitused, limit, extmodes, extmodesused, pmodes);
      FlushFacts(t, st);
      if buf == "" {
        return;
      }
      if |buf| + totalparamslen >= BUFLEN {
        assert false; // a line that does not fit would be dropped here
      }
      LineInPieces(t, st.batch);
      buf := PutValues(st.batch.ext, if limitused then limit else 0, extmodes, extmodesused, params, buf);
      sent := sent + [Line(source, channel.value, buf)];
      Clear();
    }

    // modestack_init()
    method Init(source: string, channel: string)
      requires Valid() && |source| < HOSTLEN
      modifies this
      ensures Valid()
      ensures State() == StackRuns.Init(t, mapping, old(State()), source, channel).0
      ensures sent == old(sent) + StackRuns.Init(t, mapping, old(State()), source, channel).1
    {
      InitOk(t, mapping, State(), source, channel);
      if !SameName(mapping, source, this.source) || Some(channel) != this.channel {
        Flush();
      }
      this.source := Copied(source, HOSTLEN);
      this.channel := Some(channel);
    }

    // modestack_add_simple()
    method AddSimple(dir: Dir, flags: Flags)
      requires Valid() && channel.Some?
      modifies this
      ensures Valid()
      ensures State() == Push(t, old(State()), Simple(dir, flags)).0 && sent == old(sent)
    {
      PushOk(t, State(), Simple(dir, flags));
      if dir == Add {
        modesOn, modesOff := modesOn + flags, modesOff - flags;
      } else if dir == Del {
        modesOff, modesOn := modesOff + flags, modesOn - flags;
      }
    }

    // The room checks of modestack_add_limit() and modestack_add_ext(): a setting also needs
    // size bytes.
    method MakeRoom(setting: bool, size: nat)
      requires Spelled() && channel.Some?
      modifies this
      ensures Valid()
      ensures var full := Count(old(Batch())) >= MAXMODES
                          || (setting && TotalLen(old(source), old(channel).value, old(Batch())) + size > BUFLEN);
              && State() == (if full then Flushed(t, old(State())) else old(State()))
              && sent == old(sent) + (if full then FlushLines(t, old(State())) else [])
    {
      NothingPrinted(t, Flushed(t, State()));
      CalcLen();
      if paramcount >= MAXMODES {
        Flush();
      }
      if setting && totallen + size > BUFLEN {
        Flush();
      }
    }

    // modestack_add_limit()
    method AddLimit(dir: Dir, n: nat)
      requires Valid() && channel.Some? && ValidRequest(t, Limit(dir, n))
      modifies this
      ensures Valid()
      ensures State() == Push(t, old(State()), Limit(dir, n)).0
      ensures sent == old(sent) + Push(t, old(State()), Limit(dir, n)).1
    {
      ghost var st, r := State(), Limit(dir, n);
      PushOk(t, st, r);
      DroppedOk(t, st, r);
      limitused := false;
      assert State() == st.(batch := Dropped(st.batch, r));
      MakeRoom(dir == Add, 11);
      ghost var room := Batch();
      limit := if dir == Add then n else 0;
      limitused := true;
      assert Batch() == AddTo(room, r);
    }

    // modestack_add_ext()
    method AddExt(dir: Dir, i: nat, value: string)
      requires Valid() && channel.Some? && i < |t.ext|
      requires ValidRequest(t, Ext(dir, i, value)) && ShortValue(Ext(dir, i, value))
      modifies this
      ensures Valid()
      ensures State() == Push(t, old(State()), Ext(dir, i, value)).0
      ensures sent == old(sent) + Push(t, old(State()), Ext(dir, i, value)).1
    {
      ghost var st, r := State(), Ext(dir, i, value);
      PushOk(t, st, r);
      DroppedOk(t, st, r);
      extmodesused := extmodesused[i := false];
      assert State() == st.(batch := Dropped(st.batch, r));
      MakeRoom(dir == Add, 1 + |value|);
      ghost var room := Batch();
      AddExtSize(room, r);
      var text := if dir == Add then Copied(value, 512) else "";
      assert ExtOf(extmodes[i := text], extmodesused[i := true]) == AddTo(room, r).ext;
      extmodes := extmodes[i := text];
      extmodesused := extmodesused[i := true];
      assert Batch() == AddTo(room, r);
    }

    // modestack_add_param()
    method AddParam(dir: Dir, kind: char, value: string)
      requires Valid() && channel.Some?
      requires ValidRequest(t, Param(dir, kind, value)) && ShortValue(Param(dir, kind, value))
      modifies this
      ensures Valid()
      ensures State() == Push(t, old(State()), Param(dir, kind, value)).0
      ensures sent == old(sent) + Push(t, old(State()), Param(dir, kind, value)).1
    {
      ghost var r := Param(dir, kind, value);
      PushOk(t, State(), r);
      var full, dir2 := NoRoom(dir, kind, value);
      if full {
        Flush();
        dir2 := Nul;
      }
      AppendParam(dir, kind, value, dir2);
    }

    // Whether a parameter mode needs a flush first, and the direction pmodes ends in.
    method NoRoom(dir: Dir, kind: char, value: string) returns (full: bool, dir2: Dir)
      requires Valid() && channel.Some?
      modifies this`totallen, this`totalparamslen, this`paramcount
      ensures Valid() && State() == old(State())
      ensures full == Full(source, channel.value, Batch(), Param(dir, kind, value)) && dir2 == LastItemDir(items)
    {
      ScanItems(t, items, Nul);
      var n;
      n, dir2 := ScanModes(pmodes);
      var used, _ := ExtLengths(extmodes, extmodesused);
      n := n + (if limitused then 1 else 0) + used;
      CalcLen();
      full := n >= MAXMODES || totallen + (if dir != dir2 then 1 else 0) + 2 + |value| > BUFLEN || (kind == 'k' && 'k' in pmodes);
    }

    // Writes one more parameter mode into the two buffers.
    method AppendParam(dir: Dir, kind: char, value: string, dir2: Dir)
      requires Valid() && dir2 == LastItemDir(items)
      requires Ok(t, State().(batch := AddTo(Batch(), Param(dir, kind, value))))
      modifies this`pmodes, this`params, this`items
      ensures Valid()
      ensures State() == old(State()).(batch := AddTo(old(Batch()), Param(dir, kind, value)))
    {
      ghost var it := Item(dir, kind, value);
      AddItemText(t, items, it);
      AddItemSize(Batch(), Param(dir, kind, value));
      ItemLettersShort(items + [it], Nul);
      var str := if dir != dir2 then [Sign(dir), kind] else [kind];
      var letters := pmodes + Copied(str, 2 * MAXMODES + 2 - |pmodes|);
      var text := params + Copied(" ", 512 - |params|);
      text := text + Copied(value, 512 - |text|);
      assert letters == ItemLetters(items + [it], Nul) && text == Spaced(ItemValues(items + [it]));
      pmodes, params, items := letters, text, items + [it];
    }

    // modestack_mode_simple_real()
    method ModeSimple(source: string, channel: string, dir: Dir, flags: Flags)
      requires Valid() && |source| < HOSTLEN
      modifies this
      ensures Valid()
      ensures State() == Step(t, mapping, old(State()), Stacked(source, channel, Simple(dir, flags))).0
      ensures sent == old(sent) + Step(t, mapping, old(State()), Stacked(source, channel, Simple(dir, flags))).1
    {
      if flags == {} {
        return;
      }
      Init(source, channel);
      AddSimple(dir, flags);
    }

    // modestack_mode_limit_real()
    method ModeLimit(source: string, channel: string, dir: Dir, n: nat)
      requires Valid() && |source| < HOSTLEN && ValidRequest(t, Limit(dir, n))
      modifies this
      ensures Valid()
      ensures State() == Step(t, mapping, old(State()), Stacked(source, channel, Limit(dir, n))).0
      ensures sent == old(sent) + Step(t, mapping, old(State()), Stacked(source, channel, Limit(dir, n))).1
    {
      Init(source, channel);
      AddLimit(dir, n);
    }

    // modestack_mode_ext_real()
    method ModeExt(source: string, channel: string, dir: Dir, i: nat, value: string)
      requires Valid() && |source| < HOSTLEN
      requires ValidRequest(t, Ext(dir, i, value)) && ShortValue(Ext(dir, i, value))
      modifies this
      ensures Valid()
      ensures State() == Step(t, mapping, old(State()), Stacked(source, channel, Ext(dir, i, value))).0
      ensures sent == old(sent) + Step(t, mapping, old(State()), Stacked(source, channel, Ext(dir, i, value))).1
    {
      Init(source, channel);
      if i >= |t.ext| {
        return;
      }
      AddExt(dir, i, value);
    }

    // modestack_mode_param_real()
    method ModeParam(source: string, channel: string, dir: Dir, kind: char, value: string)
      requires Valid() && |source| < HOSTLEN
      requires ValidRequest(t, Param(dir, kind, value)) && ShortValue(Param(dir, kind, value))
      modifies this
      ensures Valid()
      ensures State() == Step(t, mapping, old(State()), Stacked(source, channel, Param(dir, kind, value))).0
      ensures sent == old(sent) + Step(t, mapping, old(State()), Stacked(source, channel, Param(dir, kind, value))).1
    {
      Init(source, channel);
      AddParam(dir, kind, value);
    }

    // modestack_flush_channel(); modestack_flush_now() is FlushOf(None)
    method FlushOf(only: Option<string>)
      requires Valid()
      modifies this
      ensures Valid()
      ensures State() == Step(t, mapping, old(State()), FlushChannel(only)).0
      ensures sent == old(sent) + Step(t, mapping, old(State()), FlushChannel(only)).1
    {
      if only.None? || only == channel {
        Flush();
      }
    }
  }

  // The direction md->pmodes ends in and its letters that are not signs.
  method ScanModes(pmodes: string) returns (n: nat, dir2: Dir)
    ensures n == Unsigned(pmodes) && dir2 == DirAfter(pmodes, Nul)
  {
    n, dir2 := 0, Nul;
    var p := 0;
    while p < |pmodes|
      invariant p <= |pmodes|
      invariant n + Unsigned(pmodes[p..]) == Unsigned(pmodes)
      invariant DirAfter(pmodes[p..], dir2) == DirAfter(pmodes, Nul)
    {
      assert pmodes[p..][1..] == pmodes[p + 1..];
      if pmodes[p] == '+' {
        dir2 := Add;
      } else if pmodes[p] == '-' {
        dir2 := Del;
      } else {
        n := n + 1;
      }
      p := p + 1;
    }
  }

  lemma {:induction false} ItemLettersShort(items: seq<Item>, d: Dir)
    ensures |ItemLetters(items, d)| <= 2 * |items|
  {
    if items != [] {
      ItemLettersShort(items[1..], items[0].dir);
    }
  }

  lemma AddItemText(t: Tables, items: seq<Item>, it: Item)
    ensures ItemLetters(items + [it], Nul) == ItemLetters(items, Nul) + OneItem(it, LastItemDir(items))
    ensures Spaced(ItemValues(items + [it])) == Spaced(ItemValues(items)) + " " + it.value
    ensures |ItemLetters(items, Nul)| <= 2 * |items|
  {
    ItemLettersSnoc(items, it, Nul);
    ItemValuesSnoc(items, it);
    SpacedSnoc(ItemValues(items), it.value);
    ItemLettersShort(items, Nul);
  }

  lemma NothingPrinted(t: Tables, st: Stack)
    requires t.Valid() && st.batch == Nothing(t)
    ensures FlushLines(t, st) == []
  {
    NothingSize(|t.ext|, 0);
    ExtLettersCount(t, st.batch.ext, 0);
  }

  lemma FlushFacts(t: Tables, st: Stack)
    requires t.Valid() && Ok(t, st)
    ensures Letters(t, st.batch) == "" ==> st.batch == Nothing(t)
    ensures Letters(t, st.batch) != "" ==> st.channel.Some?
    ensures |Letters(t, st.batch)| + ParamSize(st.batch) < BUFLEN
    ensures |LimitText(if st.batch.limit.Some? then st.batch.limit.value else 0)| + |Spaced(ExtValues(st.batch.ext, 0))| + |Spaced(ItemValues(st.batch.items))| <= ParamSize(st.batch)
  {
    LettersLength(t, st);
    ValuesSize(st.batch);
    SpacedValues(st.batch);
    if Letters(t, st.batch) == "" {
      NothingLeft(t, st.batch);
    } else if st.channel.None? {
      NothingSize(|t.ext|, 0);
      ExtLettersCount(t, st.batch.ext, 0);
    }
  }

  lemma {:induction false} NoFlagLetters(t: Tables, from: nat)
    requires t.Valid()
    ensures FlagLetters(t, {}, from) == ""
    decreases |t.simple| - from
  {
    if from < |t.simple| {
      NoFlagLetters(t, from + 1);
    }
  }

  lemma {:induction false} NoExtUsed(t: Tables, ext: seq<Option<string>>, from: nat)
    requires |ext| == |t.ext| && from <= |ext|
    requires ExtLetters(t, ext, Add, from) == "" && ExtLetters(t, ext, Del, from) == ""
    ensures forall i :: from <= i < |ext| ==> ext[i] == None
    decreases |ext| - from
  {
    if from < |ext| {
      NoExtUsed(t, ext, from + 1);
    }
  }

  // A batch that prints nothing holds nothing.
  lemma NothingLeft(t: Tables, p: Pending)
    requires t.Valid() && ValidPending(t, p) && Letters(t, p) == ""
    ensures p == Nothing(t)
  {
    LettersAreAWord(t, p);
    NoExtUsed(t, p.ext, 0);
    assert p.ext == Nothing(t).ext;
  }
}
