// The MODE line printed for a batch, and the proof that channel_mode() reading that line does to
// the channel what the batch means (libathemecore/cmode.c:473-566, read by 116-357).
module ModeLine {
  import opened Basics
  import opened CaseMap
  import opened Text
  import opened ChannelModes
  import opened PendingModes

  // flags_to_string, from the given table entry on.
  function FlagLetters(t: Tables, flags: Flags, from: nat): string
    requires |t.simpleValue| == |t.simple|
    decreases |t.simple| - from
  {
    if from >= |t.simple| then ""
    else
      var rest := FlagLetters(t, flags, from + 1);
      if t.simpleValue[from] in flags then [t.simple[from]] + rest else rest
  }

  predicate Removes(v: Option<string>) {
    v.Some? && v.value == ""
  }

  predicate Sets(v: Option<string>) {
    v.Some? && v.value != ""
  }

  function ExtLetters(t: Tables, ext: seq<Option<string>>, dir: Dir, from: nat): string
    requires |ext| == |t.ext|
    decreases |ext| - from
  {
    if from >= |ext| then ""
    else
      var rest := ExtLetters(t, ext, dir, from + 1);
      if if dir == Add then Sets(ext[from]) else Removes(ext[from]) then [t.ext[from]] + rest else rest
  }

  function ExtValues(ext: seq<Option<string>>, from: nat): seq<string>
    decreases |ext| - from
  {
    if from >= |ext| then []
    else if Sets(ext[from]) then [ext[from].value] + ExtValues(ext, from + 1)
    else ExtValues(ext, from + 1)
  }

  function Sign(d: Dir): char {
    if d == Add then '+' else '-'
  }

  // The letters of the parameter list, written where the direction is dir.
  function ItemLetters(items: seq<Item>, dir: Dir): string {
    if items == [] then ""
    else
      var tail := [items[0].kind] + ItemLetters(items[1..], items[0].dir);
      if items[0].dir != dir then [Sign(items[0].dir)] + tail else tail
  }

  function ItemValues(items: seq<Item>): seq<string> {
    if items == [] then [] else [items[0].value] + ItemValues(items[1..])
  }

  function LimitLetter(p: Pending, dir: Dir): string {
    if p.limit.Some? && (dir == Add <==> p.limit.value != 0) then "l" else ""
  }

  function Part(t: Tables, p: Pending, dir: Dir): string
    requires |t.simpleValue| == |t.simple| && |p.ext| == |t.ext|
  {
    FlagLetters(t, if dir == Add then p.on else p.off, 0) + LimitLetter(p, dir) + ExtLetters(t, p.ext, dir, 0)
  }

  // Whether the sign of this part is written.
  predicate Signed(t: Tables, p: Pending, dir: Dir)
    requires |p.ext| == |t.ext|
  {
    (if dir == Add then p.on else p.off) != {} || LimitLetter(p, dir) != "" || ExtLetters(t, p.ext, dir, 0) != ""
  }

  function LastDir(t: Tables, p: Pending): Dir
    requires |p.ext| == |t.ext|
  {
    if Signed(t, p, Add) then Add else if Signed(t, p, Del) then Del else Nul
  }

  function SignedPart(t: Tables, p: Pending, dir: Dir): string
    requires |t.simpleValue| == |t.simple| && |p.ext| == |t.ext|
  {
    if Signed(t, p, dir) then [Sign(dir)] + Part(t, p, dir) else ""
  }

  function Letters(t: Tables, p: Pending): string
    requires |t.simpleValue| == |t.simple| && |p.ext| == |t.ext|
  {
    SignedPart(t, p, Del) + (SignedPart(t, p, Add) + ItemLetters(p.items, LastDir(t, p)))
  }

  function LimitValues(p: Pending): seq<string> {
    if p.limit.Some? && p.limit.value != 0 then [Decimal(p.limit.value)] else []
  }

  function Values(p: Pending): seq<string> {
    LimitValues(p) + ExtValues(p.ext, 0) + ItemValues(p.items)
  }

  function LineText(t: Tables, p: Pending): string
    requires |t.simpleValue| == |t.simple| && |p.ext| == |t.ext|
  {
    Letters(t, p) + Spaced(Values(p))
  }

  // ---- reading the line back ----

  // s' is s with the channel changed and n parameters consumed.
  ghost predicate Reached(s: Cursor, s': Cursor, ch: ChanState, n: nat) {
    s'.chan == ch && s'.parpos == s.parpos + n && s'.dir == s.dir
  }

  // The n next parameters.
  ghost predicate Ahead(parv: seq<string>, s: Cursor, vs: seq<string>) {
    s.parpos + 1 + |vs| <= |parv| && parv[s.parpos + 1..s.parpos + 1 + |vs|] == vs
  }

  ghost predicate Fits(t: Tables, s: Cursor) {
    t.Valid() && |s.chan.ext| == |t.ext|
  }

  lemma FindAt(s: string, i: nat)
    requires DistinctLetters(s) && i < |s|
    ensures Find(s, s[i]) == i
  {
  }

  lemma InterpCons(t: Tables, net: Network, c: char, rest: string, parv: seq<string>, s: Cursor)
    requires Fits(t, s)
    ensures Interp(t, net, false, [c] + rest, parv, s) == Interp(t, net, false, rest, parv, StepLetter(t, net, false, c, parv, s))
  {
    assert ([c] + rest)[1..] == rest;
  }

  lemma AheadSplit(parv: seq<string>, s: Cursor, v: string, rest: seq<string>)
    requires Ahead(parv, s, [v] + rest)
    ensures s.parpos + 1 < |parv| && parv[s.parpos + 1] == v
    ensures forall s': Cursor :: s'.parpos == s.parpos + 1 ==> Ahead(parv, s', rest)
  {
    var n := s.parpos + 1 + |[v] + rest|;
    assert parv[s.parpos + 1..n][0] == v;
    assert parv[s.parpos + 1..n][1..] == parv[s.parpos + 2..n] == rest;
  }

  lemma StepFlag(t: Tables, net: Network, i: nat, parv: seq<string>, s: Cursor)
    requires Fits(t, s) && i < |t.simple|
    ensures StepLetter(t, net, false, t.simple[i], parv, s)
         == s.Do(SetSimple(s.chan, s.dir, {t.simpleValue[i]}), Simple(s.dir, {t.simpleValue[i]}))
  {
    FindAt(t.simple, i);
    assert t.simple[i] in t.simple;
    assert '+' in "+- " && '-' in "+- ";
  }

  lemma StepExt(t: Tables, net: Network, i: nat, parv: seq<string>, s: Cursor)
    requires Fits(t, s) && i < |t.ext| && (s.dir == Add ==> s.parpos + 1 < |parv|)
    ensures StepLetter(t, net, false, t.ext[i], parv, s)
         == if s.dir == Add then s.(parpos := s.parpos + 1).Do(SetExt(s.chan, i, Some(parv[s.parpos + 1])), Ext(Add, i, parv[s.parpos + 1]))
            else s.Do(SetExt(s.chan, i, None), Ext(Del, i, ""))
  {
    FindAt(t.ext, i);
    assert t.ext[i] in t.ext;
    assert '+' in "+- " && '-' in "+- ";
  }

  lemma SetSimpleTwice(ch: ChanState, dir: Dir, a: Flags, b: Flags)
    ensures SetSimple(SetSimple(ch, dir, a), dir, b) == SetSimple(ch, dir, a + b)
  {
    assert SetSimple(SetSimple(ch, dir, a), dir, b).modes == SetSimple(ch, dir, a + b).modes;
  }

  function ListedFrom(t: Tables, from: nat): Flags
    requires from <= |t.simpleValue|
  {
    set v <- t.simpleValue[from..]
  }

  lemma {:induction false} ReadFlags(t: Tables, net: Network, flags: Flags, from: nat, parv: seq<string>, s: Cursor)
    requires Fits(t, s) && from <= |t.simple| && s.dir != Nul
    ensures Reached(s, Interp(t, net, false, FlagLetters(t, flags, from), parv, s), SetSimple(s.chan, s.dir, flags * ListedFrom(t, from)), 0)
    decreases |t.simple| - from
  {
    if from == |t.simple| {
      assert flags * ListedFrom(t, from) == {};
      assert SetSimple(s.chan, s.dir, {}).modes == s.chan.modes;
    } else {
      var v := t.simpleValue[from];
      assert t.simpleValue[from..] == [v] + t.simpleValue[from + 1..];
      assert ListedFrom(t, from) == {v} + ListedFrom(t, from + 1);
      if v in flags {
        StepFlag(t, net, from, parv, s);
        InterpCons(t, net, t.simple[from], FlagLetters(t, flags, from + 1), parv, s);
        ReadFlags(t, net, flags, from + 1, parv, StepLetter(t, net, false, t.simple[from], parv, s));
        SetSimpleTwice(s.chan, s.dir, {v}, flags * ListedFrom(t, from + 1));
        assert flags * ListedFrom(t, from) == {v} + flags * ListedFrom(t, from + 1);
      } else {
        ReadFlags(t, net, flags, from + 1, parv, s);
        assert flags * ListedFrom(t, from) == flags * ListedFrom(t, from + 1);
      }
    }
  }

  lemma ReadLimitLetter(t: Tables, net: Network, p: Pending, parv: seq<string>, s: Cursor)
    requires Fits(t, s) && s.dir != Nul && ValidPending(t, p)
    requires s.dir == Add ==> Ahead(parv, s, LimitValues(p))
    ensures Reached(s, Interp(t, net, false, LimitLetter(p, s.dir), parv, s),
                    if LimitLetter(p, s.dir) != "" then SetLimit(s.chan, p.limit.value) else s.chan,
                    if s.dir == Add then |LimitValues(p)| else 0)
  {
    if LimitLetter(p, s.dir) != "" {
      assert "l"[1..] == "" && "l"[0] == 'l' && 'l' in "lk";
      if s.dir == Add {
        assert parv[s.parpos + 1..s.parpos + 2][0] == Decimal(p.limit.value);
        AtoiDecimal(p.limit.value);
      }
    }
  }

  // The ext modes of cur from an index on, with the removals (or settings) of ext done.
  function After(cur: seq<Option<string>>, ext: seq<Option<string>>, dir: Dir, from: nat): seq<Option<string>>
    requires |cur| == |ext|
  {
    seq(|cur|, i requires 0 <= i < |cur| =>
      if i < from then cur[i]
      else if dir == Add then (if Sets(ext[i]) then ext[i] else cur[i])
      else if Removes(ext[i]) then None else cur[i])
  }

  lemma {:induction false} ReadExts(t: Tables, net: Network, ext: seq<Option<string>>, from: nat, parv: seq<string>, s: Cursor)
    requires Fits(t, s) && s.dir != Nul && |ext| == |t.ext| && from <= |ext|
    requires s.dir == Add ==> Ahead(parv, s, ExtValues(ext, from))
    ensures Reached(s, Interp(t, net, false, ExtLetters(t, ext, s.dir, from), parv, s),
                    s.chan.(ext := After(s.chan.ext, ext, s.dir, from)),
                    if s.dir == Add then |ExtValues(ext, from)| else 0)
    decreases |ext| - from
  {
    if from == |ext| {
      assert After(s.chan.ext, ext, s.dir, from) == s.chan.ext;
    } else if if s.dir == Add then Sets(ext[from]) else Removes(ext[from]) {
      if s.dir == Add {
        AheadSplit(parv, s, ext[from].value, ExtValues(ext, from + 1));
      }
      StepExt(t, net, from, parv, s);
      InterpCons(t, net, t.ext[from], ExtLetters(t, ext, s.dir, from + 1), parv, s);
      var s1 := StepLetter(t, net, false, t.ext[from], parv, s);
      ReadExts(t, net, ext, from + 1, parv, s1);
      assert After(s1.chan.ext, ext, s.dir, from + 1) == After(s.chan.ext, ext, s.dir, from);
    } else {
      ReadExts(t, net, ext, from + 1, parv, s);
      assert After(s.chan.ext, ext, s.dir, from + 1) == After(s.chan.ext, ext, s.dir, from);
    }
  }

  lemma ReadItem(t: Tables, net: Network, it: Item, parv: seq<string>, s: Cursor)
    requires Fits(t, s) && ValidItem(t, it) && s.dir == it.dir
    requires s.parpos + 1 < |parv| && parv[s.parpos + 1] == it.value
    ensures Reached(s, StepLetter(t, net, false, it.kind, parv, s), Apply(t, net, Param(it.dir, it.kind, it.value), s.chan), 1)
  {
    var c := it.kind;
    assert 'k' in "lk" && 'l' in "lk" && '+' in "+- " && '-' in "+- ";
    assert c in t.banLike ==> c !in t.simple && c !in t.ext && c != 'l' && c != 'k' && c !in t.status && c != '+' && c != '-';
    assert c in t.status ==> c !in t.simple && c !in t.ext && c != 'l' && c != 'k' && c != '+' && c != '-';
  }

  lemma {:induction false} ReadItems(t: Tables, net: Network, items: seq<Item>, parv: seq<string>, s: Cursor)
    requires Fits(t, s) && (forall it <- items :: ValidItem(t, it))
    requires Ahead(parv, s, ItemValues(items))
    ensures Interp(t, net, false, ItemLetters(items, s.dir), parv, s).chan == ApplyAll(t, net, ItemRequests(items), s.chan)
    decreases |items|
  {
    if items != [] {
      var it, rest := items[0], items[1..];
      assert it in items;
      var s0 := s.(dir := it.dir);
      var tail := [it.kind] + ItemLetters(rest, it.dir);
      if it.dir != s.dir {
        assert ItemLetters(items, s.dir) == [Sign(it.dir)] + tail;
        InterpCons(t, net, Sign(it.dir), tail, parv, s);
      } else {
        assert ItemLetters(items, s.dir) == tail;
      }
      AheadSplit(parv, s, it.value, ItemValues(rest));
      InterpCons(t, net, it.kind, ItemLetters(rest, it.dir), parv, s0);
      ReadItem(t, net, it, parv, s0);
      var s1 := StepLetter(t, net, false, it.kind, parv, s0);
      ReadItems(t, net, rest, parv, s1);
      ApplyItemFirst(t, net, items, s.chan);
    }
  }

  lemma ApplyItemFirst(t: Tables, net: Network, items: seq<Item>, ch: ChanState)
    requires t.Valid() && items != []
    ensures ApplyAll(t, net, ItemRequests(items), ch)
         == ApplyAll(t, net, ItemRequests(items[1..]), Apply(t, net, Param(items[0].dir, items[0].kind, items[0].value), ch))
  {
    var rs := ItemRequests(items);
    assert rs == [rs[0]] + ItemRequests(items[1..]);
    ApplyAllAppend(t, net, [rs[0]], ItemRequests(items[1..]), ch);
    assert ApplyAll(t, net, [rs[0]][..0], ch) == ch;
  }

  // What one signed part of the line does.
  function PartEffect(t: Tables, p: Pending, dir: Dir, ch: ChanState): ChanState
    requires |p.ext| == |ch.ext|
  {
    var c := SetSimple(ch, dir, (if dir == Add then p.on else p.off) * t.Listed());
    var c' := if LimitLetter(p, dir) != "" then SetLimit(c, p.limit.value) else c;
    c'.(ext := After(ch.ext, p.ext, dir, 0))
  }

  function PartValues(p: Pending, dir: Dir): seq<string> {
    if dir == Add then LimitValues(p) + ExtValues(p.ext, 0) else []
  }

  lemma AheadAppend(parv: seq<string>, s: Cursor, a: seq<string>, b: seq<string>)
    requires Ahead(parv, s, a + b)
    ensures Ahead(parv, s, a)
    ensures forall s': Cursor :: s'.parpos == s.parpos + |a| ==> Ahead(parv, s', b)
  {
    var i, n := s.parpos + 1, |a + b|;
    assert parv[i..i + n][..|a|] == parv[i..i + |a|] == a;
    assert parv[i..i + n][|a|..] == parv[i + |a|..i + n] == b;
  }

  lemma ReadPart(t: Tables, net: Network, p: Pending, dir: Dir, parv: seq<string>, s: Cursor)
    requires Fits(t, s) && ValidPending(t, p) && dir != Nul && s.dir == dir
    requires Ahead(parv, s, PartValues(p, dir))
    ensures Reached(s, Interp(t, net, false, Part(t, p, dir), parv, s), PartEffect(t, p, dir, s.chan), |PartValues(p, dir)|)
  {
    var flags := if dir == Add then p.on else p.off;
    var f, l, e := FlagLetters(t, flags, 0), LimitLetter(p, dir), ExtLetters(t, p.ext, dir, 0);
    assert t.simpleValue[0..] == t.simpleValue;
    ReadFlags(t, net, flags, 0, parv, s);
    var s1 := Interp(t, net, false, f, parv, s);
    if dir == Add {
      AheadAppend(parv, s, LimitValues(p), ExtValues(p.ext, 0));
    }
    ReadLimitLetter(t, net, p, parv, s1);
    var s2 := Interp(t, net, false, l, parv, s1);
    ReadExts(t, net, p.ext, 0, parv, s2);
    InterpAppend(t, net, false, f + l, e, parv, s);
    InterpAppend(t, net, false, f, l, parv, s);
  }

  lemma ReadSignedPart(t: Tables, net: Network, p: Pending, dir: Dir, parv: seq<string>, s: Cursor)
    requires Fits(t, s) && ValidPending(t, p) && dir != Nul
    requires Ahead(parv, s, PartValues(p, dir))
    ensures var s' := Interp(t, net, false, SignedPart(t, p, dir), parv, s);
            && s'.chan == PartEffect(t, p, dir, s.chan)
            && s'.parpos == s.parpos + |PartValues(p, dir)|
            && s'.dir == if Signed(t, p, dir) then dir else s.dir
  {
    if Signed(t, p, dir) {
      InterpCons(t, net, Sign(dir), Part(t, p, dir), parv, s);
      assert StepLetter(t, net, false, Sign(dir), parv, s) == s.(dir := dir);
      ReadPart(t, net, p, dir, parv, s.(dir := dir));
    } else {
      NoExts(t, p.ext, dir, 0);
      assert SetSimple(s.chan, dir, {} * t.Listed()).modes == s.chan.modes;
      assert After(s.chan.ext, p.ext, dir, 0) == s.chan.ext;
      if dir == Add {
        assert LimitValues(p) == [];
      }
    }
  }

  lemma {:induction false} NoExts(t: Tables, ext: seq<Option<string>>, dir: Dir, from: nat)
    requires |ext| == |t.ext| && from <= |ext| && ExtLetters(t, ext, dir, from) == ""
    ensures forall i :: from <= i < |ext| ==> !(if dir == Add then Sets(ext[i]) else Removes(ext[i]))
    ensures dir == Add ==> ExtValues(ext, from) == []
    decreases |ext| - from
  {
    if from < |ext| {
      NoExts(t, ext, dir, from + 1);
    }
  }

  lemma HeadInParts(t: Tables, p: Pending, ch: ChanState)
    requires t.Valid() && ValidPending(t, p) && |ch.ext| == |t.ext|
    ensures PartEffect(t, p, Add, PartEffect(t, p, Del, ch)) == Head(t, p, ch)
  {
    assert CMODE_LIMIT !in t.Listed();
    var h, q := Head(t, p, ch), PartEffect(t, p, Add, PartEffect(t, p, Del, ch));
    assert q.modes == h.modes;
    assert q.ext == h.ext;
  }

  // ---- the line is made of words ----

  lemma {:induction false} FlagLettersListed(t: Tables, flags: Flags, from: nat)
    requires t.Valid()
    ensures forall c <- FlagLetters(t, flags, from) :: c in t.simple
    decreases |t.simple| - from
  {
    if from < |t.simple| {
      FlagLettersListed(t, flags, from + 1);
    }
  }

  lemma {:induction false} ExtLettersListed(t: Tables, ext: seq<Option<string>>, dir: Dir, from: nat)
    requires |ext| == |t.ext|
    ensures forall c <- ExtLetters(t, ext, dir, from) :: c in t.ext
    decreases |ext| - from
  {
    if from < |ext| {
      ExtLettersListed(t, ext, dir, from + 1);
    }
  }

  lemma {:induction false} ItemLettersListed(t: Tables, items: seq<Item>, dir: Dir)
    requires forall it <- items :: ValidItem(t, it)
    ensures forall c <- ItemLetters(items, dir) :: c == '+' || c == '-' || c == 'k' || c in t.banLike || c in t.status
    decreases |items|
  {
    if items != [] {
      assert items[0] in items;
      ItemLettersListed(t, items[1..], items[0].dir);
    }
  }

  lemma PartListed(t: Tables, p: Pending, dir: Dir)
    requires t.Valid() && ValidPending(t, p)
    ensures ' ' !in SignedPart(t, p, dir)
  {
    FlagLettersListed(t, if dir == Add then p.on else p.off, 0);
    ExtLettersListed(t, p.ext, dir, 0);
    assert ' ' in "+- ";
  }

  lemma LettersAreAWord(t: Tables, p: Pending)
    requires t.Valid() && ValidPending(t, p)
    ensures ' ' !in Letters(t, p)
    ensures Letters(t, p) != "" ==> Letters(t, p)[0] == '+' || Letters(t, p)[0] == '-'
    ensures Letters(t, p) == "" <==> !Signed(t, p, Del) && !Signed(t, p, Add) && p.items == []
  {
    PartListed(t, p, Del);
    PartListed(t, p, Add);
    ItemLettersListed(t, p.items, LastDir(t, p));
    assert ' ' in "+- ";
    if p.items != [] {
      assert p.items[0] in p.items;
    }
  }

  lemma {:induction false} ItemValuesAreWords(t: Tables, items: seq<Item>)
    requires forall it <- items :: ValidItem(t, it)
    ensures forall v <- ItemValues(items) :: IsWord(v)
  {
    if items != [] {
      assert items[0] in items;
      ItemValuesAreWords(t, items[1..]);
    }
  }

  lemma {:induction false} ExtValuesAreWords(ext: seq<Option<string>>, from: nat)
    requires forall v <- ext :: v.Some? && v.value != "" ==> ValidValue(v.value)
    ensures forall v <- ExtValues(ext, from) :: IsWord(v)
    decreases |ext| - from
  {
    if from < |ext| {
      assert ext[from] in ext;
      ExtValuesAreWords(ext, from + 1);
    }
  }

  lemma ReadLetters(t: Tables, net: Network, p: Pending, ch: ChanState)
    requires t.Valid() && ValidPending(t, p) && |ch.ext| == |t.ext|
    ensures Interp(t, net, false, Letters(t, p), [Letters(t, p)] + Values(p), Cursor(ch, 0, Nul, [])).chan == Effect(t, net, p, ch)
  {
    var parv, s := [Letters(t, p)] + Values(p), Cursor(ch, 0, Nul, []);
    var first, items := PartValues(p, Add), ItemLetters(p.items, LastDir(t, p));
    hide Interp, PartEffect, ItemLetters, ItemValues, SignedPart;
    assert parv[1..1 + |Values(p)|] == Values(p) == first + ItemValues(p.items);
    AheadAppend(parv, s, first, ItemValues(p.items));
    ReadSignedPart(t, net, p, Del, parv, s);
    var s1 := Interp(t, net, false, SignedPart(t, p, Del), parv, s);
    ReadSignedPart(t, net, p, Add, parv, s1);
    var s2 := Interp(t, net, false, SignedPart(t, p, Add), parv, s1);
    ReadItems(t, net, p.items, parv, s2);
    HeadInParts(t, p, ch);
    InterpAppend(t, net, false, SignedPart(t, p, Del), SignedPart(t, p, Add) + items, parv, s);
    InterpAppend(t, net, false, SignedPart(t, p, Add), items, parv, s1);
  }

  lemma SplitLine(t: Tables, p: Pending)
    requires t.Valid() && ValidPending(t, p) && Letters(t, p) != ""
    ensures Words(LineText(t, p)) == [Letters(t, p)] + Values(p)
  {
    LettersAreAWord(t, p);
    ItemValuesAreWords(t, p.items);
    ExtValuesAreWords(p.ext, 0);
    WordsOfLine(Letters(t, p), Values(p));
  }

  // Printing keeps the meaning: the network reading the line does what the batch means. A batch
  // that prints no letters means no change.
  lemma LineMeansBatch(t: Tables, net: Network, p: Pending, ch: ChanState)
    requires t.Valid() && ValidPending(t, p) && |ch.ext| == |t.ext|
    ensures if Letters(t, p) == "" then Effect(t, net, p, ch) == ch
            else ReadModes(t, net, false, Words(LineText(t, p)), ch).chan == Effect(t, net, p, ch)
  {
    ReadLetters(t, net, p, ch);
    LettersAreAWord(t, p);
    if Letters(t, p) != "" {
      SplitLine(t, p);
    }
  }
}
