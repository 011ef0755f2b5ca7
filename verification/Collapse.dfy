// collapse(): shortens a mask in place. It keeps what the mask matches as long as it does not take
// for a star what match() takes for an escaped one (libathemecore/match.c:215-248).
module Collapse {
  import opened CaseMap
  import opened Glob
  import opened GlobExact

  function DropStars(p: string): (r: string)
    ensures |r| <= |p| && (r != "" ==> r[0] != '*')
  {
    if p != "" && p[0] == '*' then DropStars(p[1..]) else p
  }

  // A run of stars and question marks without its stars.
  function Squeeze(p: string): (r: string)
    ensures |r| <= |p|
  {
    if p != "" && p[0] == '?' then "?" + Squeeze(p[1..])
    else if p != "" && p[0] == '*' then Squeeze(p[1..])
    else p
  }

  function AfterStar(rest: string): (r: string)
    ensures |r| <= |rest|
  {
    if rest != "" && rest[0] == '*' then DropStars(rest)
    else if rest != "" && rest[0] == '?' then Squeeze(rest)
    else rest
  }

  // The mask collapse() leaves.
  function Collapsed(p: string): (r: string)
    ensures |r| <= |p|
    ensures p != "" ==> r != "" && r[0] == p[0]
    decreases |p|
  {
    if p == "" then ""
    else if p[0] == '\\' then (if |p| == 1 then p else p[..2] + Collapsed(p[2..]))
    else if p[0] == '*' then "*" + Collapsed(AfterStar(p[1..]))
    else [p[0]] + Collapsed(p[1..])
  }

  // ---- the program ----

  // The C string in a buffer.
  predicate Terminated(a: seq<char>, len: nat) {
    len < |a| && a[len] == '\0' && forall i :: 0 <= i < len ==> a[i] != '\0'
  }

  // while ((*s1++ = *t++));
  method ShiftDown(a: array<char>, s1: nat, t: nat, ghost len: nat)
    requires s1 <= t <= len && Terminated(a[..], len)
    modifies a
    ensures Terminated(a[..], len - (t - s1))
    ensures a[..len - (t - s1)] == old(a[..s1] + a[t..len])
  {
    var i, j := s1, t;
    while true
      invariant i - s1 == j - t && t <= j <= len
      invariant a[..i] == old(a[..s1] + a[t..j])
      invariant a[i..] == old(a[i..])
      decreases len - j
    {
      var c := a[j];
      assert c == old(a[i..])[j - i] == old(a[j]);
      a[i] := c;
      i, j := i + 1, j + 1;
      if c == '\0' {
        assert j - 1 == len;
        assert a[..i] == old(a[..s1] + a[t..len]) + ['\0'];
        assert a[i - 1] == a[..i][i - 1] == '\0';
        assert a[..i - 1] == a[..i][..i - 1] == old(a[..s1] + a[t..len]);
        forall k | 0 <= k < i - 1 ensures a[k] != '\0' {
          assert a[k] == a[..i - 1][k];
        }
        return;
      }
    }
  }

  // while (*t == '*') t++;
  method SkipStarsFrom(a: array<char>, s1: nat, ghost len: nat) returns (t: nat)
    requires s1 <= len && Terminated(a[..], len)
    ensures s1 <= t <= len && a[t..len] == DropStars(a[s1..len])
  {
    t := s1;
    while a[t] == '*'
      invariant s1 <= t <= len
      invariant DropStars(a[t..len]) == DropStars(a[s1..len])
      decreases len - t
    {
      assert a[t..len][1..] == a[t + 1..len];
      t := t + 1;
    }
  }

  // The question marks of was[from..t] are gathered in now[from..s1], and the rest is as it was.
  ghost predicate Gathering(was: seq<char>, now: seq<char>, from: nat, s1: nat, t: nat, len: nat) {
    && from < s1 <= t <= len < |was| == |now| && Terminated(now, len)
    && now[..from] == was[..from] && now[t..] == was[t..]
    && now[from..s1] + Squeeze(was[t..len]) == Squeeze(was[from..len])
  }

  lemma GatherOne(was: seq<char>, now: seq<char>, from: nat, s1: nat, t: nat, len: nat)
    requires Gathering(was, now, from, s1, t, len) && (now[t] == '?' || now[t] == '*')
    ensures t < len && now[t] == was[t]
    ensures now[t] == '?' ==> Gathering(was, now[s1 := '?'], from, s1 + 1, t + 1, len)
    ensures now[t] == '*' ==> Gathering(was, now, from, s1, t + 1, len)
  {
    hide Squeeze;
    assert now[t] == now[t..][0] == was[t..][0] == was[t];
    assert now[t + 1..] == now[t..][1..] && was[t + 1..] == was[t..][1..];
    SqueezeAt(was, t, len);
    if now[t] == '?' {
      var after := now[s1 := '?'];
      assert after[from..s1 + 1] == now[from..s1] + "?";
      assert now[from..s1] + ("?" + Squeeze(was[t + 1..len])) == after[from..s1 + 1] + Squeeze(was[t + 1..len]);
      assert after[..from] == now[..from] && after[t + 1..] == now[t + 1..];
    }
  }

  lemma Gathered(was: seq<char>, now: seq<char>, from: nat, s1: nat, t: nat, len: nat)
    requires Gathering(was, now, from, s1, t, len) && now[t] != '?' && now[t] != '*'
    ensures now[from..s1] + now[t..len] == Squeeze(was[from..len])
  {
    assert now[t] == now[t..][0] == was[t..][0] == was[t];
    assert now[t..len] == now[t..][..len - t] == was[t..len];
    SqueezeAt(was, t, len);
  }

  lemma GatherStart(was: seq<char>, from: nat, len: nat)
    requires from < len && Terminated(was, len) && was[from] == '?'
    ensures Gathering(was, was, from, from + 1, from + 1, len)
  {
    SqueezeAt(was, from, len);
    assert was[from..from + 1] == "?";
  }

  // Moves the question marks of a run of stars and question marks together.
  method GatherQuestions(a: array<char>, from: nat, ghost len: nat) returns (s1: nat, t: nat)
    requires from < len && Terminated(a[..], len) && a[from] == '?'
    modifies a
    ensures from < s1 <= t <= len && Terminated(a[..], len)
    ensures a[..from] == old(a[..from])
    ensures a[from..s1] + a[t..len] == Squeeze(old(a[from..len]))
  {
    hide Squeeze;
    t, s1 := from + 1, from + 1;
    ghost var was := a[..];
    GatherStart(was, from, len);
    while a[t] == '*' || a[t] == '?'
      invariant Gathering(was, a[..], from, s1, t, len)
      decreases len - t
    {
      GatherOne(was, a[..], from, s1, t, len);
      if a[t] == '?' {
        a[s1] := a[t];
        s1 := s1 + 1;
      }
      t := t + 1;
    }
    Gathered(was, a[..], from, s1, t, len);
  }

  lemma SqueezeAt(a: seq<char>, t: nat, len: nat)
    requires t <= len <= |a|
    ensures Squeeze(a[t..len]) ==
            if t < len && a[t] == '?' then "?" + Squeeze(a[t + 1..len])
            else if t < len && a[t] == '*' then Squeeze(a[t + 1..len])
            else a[t..len]
  {
    if t < len {
      assert a[t..len][0] == a[t] && a[t..len][1..] == a[t + 1..len];
    }
  }

  // The body of collapse() at a star: everything behind the star is moved up.
  method AtStar(a: array<char>, s: nat, ghost len: nat) returns (ghost len': nat)
    requires s < len && Terminated(a[..], len) && a[s] == '*'
    modifies a
    ensures s < len' <= len && Terminated(a[..], len')
    ensures a[..s + 1] == old(a[..s + 1]) && a[s + 1..len'] == AfterStar(old(a[s + 1..len]))
  {
    hide DropStars, Squeeze;
    var t, s1 := s + 1, s + 1;
    ghost var rest := a[s + 1..len];
    assert s + 1 < len ==> rest[0] == a[s + 1];
    if a[t] == '*' {
      t := SkipStarsFrom(a, s1, len);
    } else if a[t] == '?' {
      s1, t := GatherQuestions(a, s + 1, len);
    }
    assert a[s + 1..s1] + a[t..len] == AfterStar(rest);
    ghost var was := a[..];
    ShiftDown(a, s1, t, len);
    len' := len - (t - s1);
    Moved(was, a[..], s + 1, s1, t, len);
  }

  lemma Moved(was: seq<char>, now: seq<char>, i: nat, s1: nat, t: nat, len: nat)
    requires i <= s1 <= t <= len <= |was| == |now|
    requires now[..len - (t - s1)] == was[..s1] + was[t..len]
    ensures now[..i] == was[..i] && now[i..len - (t - s1)] == was[i..s1] + was[t..len]
  {
    assert now[..i] == now[..len - (t - s1)][..i];
    assert now[i..len - (t - s1)] == now[..len - (t - s1)][i..];
  }

  // One step of collapse() at the front of what is left.
  lemma CollapsedStep(front: string, p: string, k: nat)
    requires p != "" && 0 < k <= |p|
    requires if p[0] == '\\' then k == 2 else p[0] != '*' && k == 1
    ensures (front + p[..k]) + Collapsed(p[k..]) == front + Collapsed(p)
  {
    Assoc(front, p[..k], Collapsed(p[k..]));
    if k == 1 {
      assert p[..1] == [p[0]];
    }
  }

  lemma Assoc(a: string, b: string, c: string)
    ensures (a + b) + c == a + (b + c)
  {
  }

  lemma CollapsedStar(front: string, p: string)
    requires p != "" && p[0] == '*'
    ensures (front + "*") + Collapsed(AfterStar(p[1..])) == front + Collapsed(p)
  {
  }

  lemma CollapsedEnd(p: string)
    requires p == "" || p == "\\"
    ensures Collapsed(p) == p
  {
  }

  // collapse()
  method CollapseInPlace(a: array<char>, ghost len: nat) returns (ghost len': nat)
    requires Terminated(a[..], len)
    modifies a
    ensures len' <= len && Terminated(a[..], len')
    ensures a[..len'] == Collapsed(old(a[..len]))
  {
    hide Collapsed, AfterStar;
    len' := len;
    ghost var goal := Collapsed(a[..len]);
    if a[0] == '\0' {
      assert a[..len] == "";
      CollapsedEnd("");
      return;
    }
    assert a[0..len] == a[..len] && [] + goal == goal;
    var s := 0;
    while a[s] != '\0'
      invariant s <= len' <= len && Terminated(a[..], len')
      invariant a[..s] + Collapsed(a[s..len']) == goal
      decreases len' - s
    {
      ghost var front, p := a[..s], a[s..len'];
      assert p[0] == a[s] && p[1..] == a[s + 1..len'];
      if a[s] == '\\' {
        if a[s + 1] == '\0' {
          assert p == "\\" && front + p == a[..len'];
          CollapsedEnd(p);
          return;
        } else {
          assert p[2..] == a[s + 2..len'] && front + p[..2] == a[..s + 2];
          CollapsedStep(front, p, 2);
          s := s + 1;
        }
      } else if a[s] == '*' {
        assert a[..s + 1] == front + "*";
        len' := AtStar(a, s, len');
        CollapsedStar(front, p);
      } else {
        assert front + p[..1] == a[..s + 1];
        CollapsedStep(front, p, 1);
      }
      s := s + 1;
    }
    assert a[s..len'] == "" && a[..s] == a[..len'];
    CollapsedEnd("");
  }
}
