// The programs that print and read names, and names on their way through a message: text in,
// compressed bytes, text out (libathemecore/reslib.c:260-290, 388-478, 701-829, 941-950).
module DnsNames {
  import opened Basics
  import opened DnsWire
  import opened DnsPack
  import opened DnsCompress
  import opened DnsUnpack
  import opened DnsText
  import opened DnsMessage

  // ---- irc_ns_name_ntop() ----

  lemma {:induction false} LabelTextSnoc(l: seq<Byte>, c: Byte)
    ensures LabelText(l + [c]) == LabelText(l) + Escape(c)
  {
    if l == [] {
      assert l + [c] == [c] && [c][1..] == [];
    } else {
      assert (l + [c])[1..] == l[1..] + [c];
      LabelTextSnoc(l[1..], c);
    }
  }

  lemma {:induction false} LabelTextLength(l: seq<Byte>)
    ensures |LabelText(l)| >= |l|
  {
    if l != [] {
      LabelTextLength(l[1..]);
    }
  }

  lemma {:induction false} LabelTextAppend(a: seq<Byte>, b: seq<Byte>)
    ensures LabelText(a + b) == LabelText(a) + LabelText(b)
  {
    if a == [] {
      assert a + b == b;
    } else {
      assert (a + b)[1..] == a[1..] + b;
      LabelTextAppend(a[1..], b);
    }
  }

  // One character of a label, escaped; refused when the text would fill the buffer.
  method PutEscaped(dst: array<Byte>, dn: nat, c: Byte) returns (ok: bool)
    requires dn <= dst.Length
    modifies dst
    ensures dst[..dn] == old(dst[..dn])
    ensures ok <==> dn + |Escape(c)| <= dst.Length
    ensures ok ==> dst[..dn + |Escape(c)|] == old(dst[..dn]) + Escape(c)
  {
    if Special(c) {
      if dn + 1 >= dst.Length {
        return false;
      }
      dst[dn], dst[dn + 1] := BACKSLASH, c;
    } else if !Printable(c) {
      if dn + 3 >= dst.Length {
        return false;
      }
      dst[dn], dst[dn + 1], dst[dn + 2], dst[dn + 3] := BACKSLASH, Digit(c / 100), Digit(c % 100 / 10), Digit(c % 10);
    } else {
      if dn >= dst.Length {
        return false;
      }
      dst[dn] := c;
    }
    ok := true;
  }

  // The characters of one label.
  method PutLabelText(dst: array<Byte>, dn0: nat, l: Label) returns (ok: bool, dn: nat)
    requires dn0 + |l| < dst.Length
    modifies dst
    ensures ok <==> dn0 + |LabelText(l)| <= dst.Length
    ensures ok ==> dn == dn0 + |LabelText(l)| && dst[..dn] == old(dst[..dn0]) + LabelText(l)
  {
    hide Escape;
    dn := dn0;
    var i := 0;
    while i < |l|
      invariant i <= |l| && dn == dn0 + |LabelText(l[..i])| <= dst.Length
      invariant dst[..dn] == old(dst[..dn0]) + LabelText(l[..i])
    {
      assert l[..i + 1] == l[..i] + [l[i]];
      LabelTextSnoc(l[..i], l[i]);
      ok := PutEscaped(dst, dn, l[i]);
      if !ok {
        assert l == l[..i + 1] + l[i + 1..];
        LabelTextAppend(l[..i + 1], l[i + 1..]);
        return;
      }
      dn := dn + |Escape(l[i])|;
      i := i + 1;
    }
    assert l[..i] == l;
    ok := true;
  }

  lemma {:induction false} DottedSnoc(name: seq<Label>, l: Label)
    ensures Dotted(name + [l]) == Dotted(name) + (if name == [] then [] else [DOT]) + LabelText(l)
  {
    if name == [] {
      assert name + [l] == [l];
    } else {
      assert (name + [l])[1..] == name[1..] + [l];
      DottedSnoc(name[1..], l);
    }
  }

  lemma {:induction false} DottedGrows(a: seq<Label>, b: seq<Label>)
    ensures |Dotted(a + b)| >= |Dotted(a)|
    decreases |b|
  {
    if b == [] {
      assert a + b == a;
    } else {
      assert a + b == a + [b[0]] + b[1..];
      DottedSnoc(a, b[0]);
      DottedGrows(a + [b[0]], b[1..]);
    }
  }

  lemma DottedEmpty()
    ensures Dotted([]) == []
  {
  }

  // irc_ns_name_ntop() on a name that is written out: it prints the text and a terminator, and
  // fails exactly when they do not fit.
  method Ntop(src: seq<Byte>, ghost name: seq<Label>, dst: array<Byte>) returns (r: int)
    requires WireAt(src, 0, name)
    modifies dst
    ensures r == if |TextOf(name)| < dst.Length then |TextOf(name)| + 1 else -1
    ensures r != -1 ==> dst[..r] == TextOf(name) + [0]
  {
    hide WireAt, LabelText, Dotted;
    var cp: nat, dn: nat := 0, 0;
    ghost var done, rest := [], name;
    WireFirst(src, cp, rest);
    assert Dotted([]) == [] by { DottedEmpty(); }
    while src[cp] != 0
      invariant cp < |src| && WireAt(src, cp, rest) && name == done + rest && (src[cp] == 0 <==> rest == [])
      invariant dn == |Dotted(done)| <= dst.Length && dst[..dn] == Dotted(done)
      invariant dn == 0 <==> done == []
      decreases |rest|
    {
      WireFirst(src, cp, rest);
      var n := src[cp];
      DottedSnoc(done, rest[0]);
      DottedGrows(done + [rest[0]], rest[1..]);
      assert done + [rest[0]] + rest[1..] == name;
      LabelTextLength(rest[0]);
      if dn != 0 {
        if dn >= dst.Length {
          return -1;
        }
        dst[dn] := DOT;
        dn := dn + 1;
      }
      if dn + n >= dst.Length {
        return -1;
      }
      var ok;
      ok, dn := PutLabelText(dst, dn, src[cp + 1..cp + 1 + n]);
      if !ok {
        return -1;
      }
      DottedStart(done + [rest[0]]);
      done, rest := done + [rest[0]], rest[1..];
      cp := cp + 1 + n;
      WireFirst(src, cp, rest);
    }
    assert done == name;
    if dn == 0 {
      if dn >= dst.Length {
        return -1;
      }
      dst[dn] := DOT;
      dn := dn + 1;
    }
    if dn >= dst.Length {
      return -1;
    }
    dst[dn] := 0;
    r := dn + 1;
  }

  // ---- irc_ns_name_pton() ----

  // The buffer while a name is read: the labels done, a place for the next length, its bytes.
  ghost predicate Reading(dst: seq<Byte>, lab: nat, bp: nat, done: seq<Label>, cur: seq<Byte>) {
    && lab == |Written(done)| && bp == lab + 1 + |cur| && |dst| == MAXNAME
    && (lab <= |dst| ==> dst[..lab] == Written(done))
    && (bp <= |dst| ==> dst[lab + 1..bp] == cur)
    && (bp > |dst| ==> cur == [] && lab == |dst|)
  }

  // *bp++ = c
  method PutByte(dst: array<Byte>, ghost lab: nat, bp: nat, ghost done: seq<Label>, ghost cur: seq<Byte>, c: Byte) returns (ok: bool)
    requires Reading(dst[..], lab, bp, done, cur)
    modifies dst
    ensures ok <==> bp < MAXNAME
    ensures ok ==> Reading(dst[..], lab, bp + 1, done, cur + [c])
  {
    if bp >= dst.Length {
      return false;
    }
    ghost var was := dst[..];
    dst[bp] := c;
    assert dst[..][..lab] == was[..lab];
    assert dst[..][lab + 1..bp + 1] == was[lab + 1..bp] + [c];
    ok := true;
  }

  // *label = c; label = bp++
  method EndLabel(dst: array<Byte>, lab: nat, bp: nat, ghost done: seq<Label>, ghost cur: Label)
    requires Reading(dst[..], lab, bp, done, cur)
    modifies dst
    ensures Reading(dst[..], bp, bp + 1, done + [cur], [])
  {
    ghost var was := dst[..];
    dst[lab] := bp - lab - 1;
    WrittenSnoc(done, cur);
    assert dst[..][..bp] == was[..lab] + [|cur|] + was[lab + 1..bp];
  }

  // The last length byte and the root behind it.
  method EndName(dst: array<Byte>, lab: nat, bp: nat, ghost done: seq<Label>, ghost cur: seq<Byte>, ghost full: bool) returns (n: int)
    requires Reading(dst[..], lab, bp, done, cur) && |cur| <= 63
    modifies dst
    ensures n == -1 <==> Finish(done, cur, full).None?
    ensures n != -1 ==> 0 <= n <= MAXNAME && Finish(done, cur, full).Some? && dst[..n] == Wire(Finish(done, cur, full).value.name)
  {
    ghost var was := dst[..];
    if cur != [] {
      WrittenSnoc(done, cur);
    }
    hide Written;
    var c := bp - lab - 1;
    if lab >= dst.Length {
      return -1;
    }
    dst[lab] := c;
    n := bp;
    assert dst[..bp] == was[..lab] + [c] + was[lab + 1..bp];
    if c != 0 {
      if bp >= dst.Length {
        return -1;
      }
      dst[bp] := 0;
      n := bp + 1;
      assert dst[..bp + 1] == was[..lab] + [c] + was[lab + 1..bp] + [0];
    }
  }

  lemma ReadingSize(dst: seq<Byte>, lab: nat, bp: nat, done: seq<Label>, cur: seq<Byte>)
    requires Reading(dst, lab, bp, done, cur)
    ensures bp == lab + 1 + |cur| && lab == |Written(done)| && |dst| == MAXNAME
  {
  }

  lemma StartReading(dst: seq<Byte>)
    requires |dst| == MAXNAME
    ensures Reading(dst, 0, 1, [], [])
  {
  }

  lemma FinishFull(done: seq<Label>, cur: seq<Byte>, full: bool)
    ensures Finish(done, cur, full).Some? ==> Finish(done, cur, full).value.full == full
    ensures |cur| > 63 ==> Finish(done, cur, full).None?
  {
  }

  lemma ParseEnd(src: seq<Byte>, done: seq<Label>, cur: seq<Byte>)
    ensures Parse(src[|src|..], done, cur) == Finish(done, cur, false)
  {
  }

  // A byte that does not fit can only belong to a name that is too long.
  lemma Overflow(text: seq<Byte>, done: seq<Label>, cur: seq<Byte>, c: Byte)
    requires |Written(done)| + 1 + |cur| >= MAXNAME
    ensures Parse(text, done, cur + [c]) == None
  {
    if Parse(text, done, cur + [c]).Some? {
      ParseGrows(text, done, cur + [c]);
    }
  }

  // One step of reading, by position.
  lemma ParseParts(src: seq<Byte>, i: nat, done: seq<Label>, cur: seq<Byte>)
    requires i < |src|
    ensures var p := Parse(src[i..], done, cur);
            if src[i] == BACKSLASH then
              if i + 1 == |src| then p == Finish(done, cur, false)
              else if src[i + 1] == BRACKET then p == None
              else if !IsDigit(src[i + 1]) then p == Parse(src[i + 2..], done, cur + [src[i + 1]])
              else if i + 4 > |src| || !IsDigit(src[i + 2]) || !IsDigit(src[i + 3]) || Value(src[i + 1], src[i + 2], src[i + 3]) > 255 then p == None
              else p == Parse(src[i + 4..], done, cur + [Value(src[i + 1], src[i + 2], src[i + 3])])
            else if src[i] != DOT then p == Parse(src[i + 1..], done, cur + [src[i]])
            else if i + 1 == |src| then p == Finish(done, cur, true)
            else if !(1 <= |cur| <= 63) || src[i + 1] == DOT then p == None
            else p == Parse(src[i + 1..], done + [cur], [])
    ensures |cur| > 63 && src[i] == DOT ==> Parse(src[i..], done, cur) == None
  {
    var text := src[i..];
    assert text[1..] == src[i + 1..];
    if i + 2 <= |src| { assert text[2..] == src[i + 2..]; }
    if i + 4 <= |src| { assert text[4..] == src[i + 4..]; }
  }

  // irc_ns_name_pton() for the buffer its caller passes, on a text without bit strings: the name
  // written out, and 1 if it was fully qualified, 0 if not, -1 if the text is refused.
  method Pton(src: seq<Byte>, dst: array<Byte>) returns (r: int, n: int)
    requires dst.Length == MAXNAME && 0 !in src
    modifies dst
    ensures r == match Parse(src, [], []) case None => -1 case Some(p) => if p.full then 1 else 0
    ensures r != -1 ==> 0 <= n <= MAXNAME && dst[..n] == Wire(Parse(src, [], []).value.name)
  {
    hide Parse, Finish, Reading, Written;
    var i: nat, lab: nat, bp: nat := 0, 0, 1;
    ghost var done: seq<Label>, cur: seq<Byte> := [], [];
    StartReading(dst[..]);
    assert src[0..] == src;
    n := 0;
    while i < |src|
      invariant i <= |src| && Reading(dst[..], lab, bp, done, cur)
      invariant Parse(src[i..], done, cur) == Parse(src, [], [])
    {
      ReadingSize(dst[..], lab, bp, done, cur);
      ParseParts(src, i, done, cur);
      var c := src[i];
      i := i + 1;
      if c == DOT {
        if bp - lab - 1 > 63 {
          return -1, 0;
        }
        if i == |src| {
          n := EndName(dst, lab, bp, done, cur, true);
          r := if n == -1 then -1 else 1;
          FinishFull(done, cur, true);
          return;
        }
        if bp - lab - 1 == 0 || src[i] == DOT {
          return -1, 0;
        }
        EndLabel(dst, lab, bp, done, cur);
        lab, bp, done, cur := bp, bp + 1, done + [cur], [];
      } else {
        if c == BACKSLASH {
          if i == |src| {
            break;
          }
          c := src[i];
          i := i + 1;
          if c == BRACKET {
            return -1, 0;
          }
          if IsDigit(c) {
            if i + 2 > |src| || !IsDigit(src[i]) || !IsDigit(src[i + 1]) {
              return -1, 0;
            }
            var v := Value(c, src[i], src[i + 1]);
            i := i + 2;
            if v > 255 {
              return -1, 0;
            }
            c := v;
          }
        }
        var ok := PutByte(dst, lab, bp, done, cur, c);
        if !ok {
          Overflow(src[i..], done, cur, c);
          return -1, 0;
        }
        bp, cur := bp + 1, cur + [c];
      }
    }
    ReadingSize(dst[..], lab, bp, done, cur);
    ParseEnd(src, done, cur);
    FinishFull(done, cur, false);
    if bp - lab - 1 > 63 {
      return -1, 0;
    }
    n := EndName(dst, lab, bp, done, cur, false);
    r := if n == -1 then -1 else 0;
  }

  // Printing a legal name into a buffer with room and reading the text gives the same bytes back,
  // and only the root is fully qualified.
  method PrintAndRead(src: seq<Byte>, ghost name: seq<Label>, text: array<Byte>, dst: array<Byte>) returns (r: int, n: int)
    requires WireAt(src, 0, name) && LegalName(name) && dst.Length == MAXNAME && text != dst
    modifies text, dst
    ensures r == if |TextOf(name)| >= text.Length then -1 else if name == [] then 1 else 0
    ensures r != -1 ==> 0 <= n <= |src| && n <= MAXNAME && dst[..n] == src[..n] == Wire(name)
  {
    var k := Ntop(src, name, text);
    if k == -1 {
      return -1, 0;
    }
    assert text[..k - 1] == text[..k][..k - 1] == TextOf(name);
    TextHasNoNul(name);
    TextRoundTrip(name);
    r, n := Pton(text[..k - 1], dst);
    WireIsAt(src, name);
  }

  lemma WireIsAt(src: seq<Byte>, name: seq<Label>)
    requires WireAt(src, 0, name)
    ensures |Wire(name)| <= |src| && src[..|Wire(name)|] == Wire(name)
  {
    var k := |Written(name)|;
    assert src[..k + 1] == src[0..k] + [src[k]];
  }

  // ---- text in, compressed bytes, text out ----

  lemma {:induction false} LegalIsBounded(src: seq<Byte>, i: nat)
    requires NameAt(src, i).Some?
    ensures Bounded(src, i)
    decreases |src| - i
  {
    if src[i] != 0 {
      LegalIsBounded(src, i + 1 + src[i]);
    }
  }

  lemma WireIsLegal(src: seq<Byte>, n: nat, name: seq<Label>)
    requires n <= |src| && src[..n] == Wire(name) && LegalName(name)
    ensures WireAt(src, 0, name) && NameAt(src, 0) == Some(name) && Bounded(src, 0)
  {
    assert src[0..|Written(name)|] == src[..n][..|Written(name)|];
    assert src[|Written(name)|] == src[..n][|Written(name)|];
    NameAtComplete(src, 0, name);
    LegalIsBounded(src, 0);
  }

  // irc_ns_name_compress(): a text is packed as the name it stands for.
  method Compress(m: Message, text: seq<Byte>, dstsiz: nat) returns (r: Option<nat>)
    requires m.Valid() && m.end + dstsiz <= m.buf.Length && 0 !in text
    modifies m, m.buf
    ensures m.Valid()
    ensures r.None? ==> m.end == old(m.end) && m.packed == old(m.packed)
    ensures r.Some? ==> Parse(text, [], []).Some?
    ensures r.Some? ==> m.packed == old(m.packed) + [Packed(old(m.end), r.value, Parse(text, [], []).value.name)]
    ensures Parse(text, [], []).Some? ==>
              var name := Parse(text, [], []).value.name;
              var w := old(Bytes(m.buf[..], m.end, m.slots, m.dnptrs, m.packed, Parse(text, [], []).value.name));
              && PackedAs(old(m.buf[..]), old(m.dnptrs), old(m.end), name, w)
              && (r.Some? <==> Fits(w, name, dstsiz))
              && (r.Some? ==> r.value == |w| <= dstsiz && m.end == old(m.end) + |w| && m.buf[..][old(m.end)..m.end] == w)
  {
    var tmp := new Byte[MAXNAME];
    var full, n := Pton(text, tmp);
    if full == -1 {
      return None;
    }
    ghost var name := Parse(text, [], []).value.name;
    ParsedLegal(text, [], []);
    WireIsLegal(tmp[..], n, name);
    assert tmp[..][..n] == tmp[..n];
    r := m.Pack(tmp[..], dstsiz);
  }

  lemma {:induction false} ParsedLegal(text: seq<Byte>, done: seq<Label>, cur: seq<Byte>)
    requires Parse(text, done, cur).Some?
    ensures LegalName(Parse(text, done, cur).value.name)
    decreases |text|
  {
    if text == [] || (|text| == 1 && (text[0] == BACKSLASH || text[0] == DOT)) {
    } else if text[0] == BACKSLASH {
      if IsDigit(text[1]) {
        ParsedLegal(text[4..], done, cur + [Value(text[1], text[2], text[3])]);
      } else {
        ParsedLegal(text[2..], done, cur + [text[1]]);
      }
    } else if text[0] == DOT {
      ParsedLegal(text[1..], done + [cur], []);
    } else {
      ParsedLegal(text[1..], done, cur + [text[0]]);
    }
  }

  // irc_dn_expand() on a name that was packed, however many were packed since: the text of that
  // name, up to letter case, and the bytes it took; the root comes out as an empty text.
  method Expand(m: Message, e: Packed, dst: array<Byte>) returns (r: int, ghost name: seq<Label>)
    requires m.Valid() && e in m.packed && dst != m.buf
    modifies dst
    ensures SameName(name, e.name)
    ensures r == if |TextOf(name)| < dst.Length then e.size else -1
    ensures r != -1 ==> if name == [] then dst[0] == 0 else dst[..|TextOf(name)| + 1] == TextOf(name) + [0]
  {
    var u;
    u, name := m.ReadBack(e);
    var (n, wire) := u.value;
    WrittenAtStart(name);
    var k := Ntop(wire, name, dst);
    if k == -1 {
      return -1, name;
    }
    r := n;
    PackedTakesRoom(m, e);
    if name == [] {
      assert dst[..k][0] == DOT;
    } else {
      DottedStart(name);
      assert dst[..k][0] != DOT;
    }
    if n > 0 && dst[0] == DOT {
      dst[0] := 0;
    }
  }

  lemma WrittenAtStart(name: seq<Label>)
    ensures WireAt(Wire(name), 0, name)
  {
    assert Wire(name)[0..|Written(name)|] == Written(name);
  }

  lemma PackedTakesRoom(m: Message, e: Packed)
    requires m.Valid() && e in m.packed
    ensures e.size > 0
  {
    assert Holds(m.buf[..], m.end, e);
  }
}
