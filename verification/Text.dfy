// C strings as the mode code uses them: searching, splitting a line, decimal numbers.
module Text {

  // strchr as an index; |s| when the character does not occur.
  function Find(s: string, c: char): (i: nat)
    ensures i <= |s|
    ensures i < |s| ==> s[i] == c
    ensures forall j :: 0 <= j < i ==> s[j] != c
  {
    if s == "" || s[0] == c then 0 else 1 + Find(s[1..], c)
  }

  lemma {:induction false} FindAppend(s: string, tail: string, c: char)
    requires c !in s
    ensures Find(s + tail, c) == |s| + Find(tail, c)
  {
    if s == "" {
      assert s + tail == tail;
    } else {
      assert (s + tail)[1..] == s[1..] + tail;
      FindAppend(s[1..], tail, c);
    }
  }

  // The words of a line as tokenize() cuts it at spaces (libathemecore/tokenize.c:107-126).
  function Words(s: string): seq<string>
    decreases |s|
  {
    if s == "" then []
    else if s[0] == ' ' then Words(s[1..])
    else
      var n := Find(s, ' ');
      [s[..n]] + Words(s[n..])
  }

  predicate IsWord(s: string) {
    s != "" && ' ' !in s
  }

  // Parameters as they follow the letters in a MODE line, each with its leading space.
  function Spaced(ps: seq<string>): string {
    if ps == [] then "" else " " + ps[0] + Spaced(ps[1..])
  }

  lemma {:induction false} SpacedSnoc(ps: seq<string>, p: string)
    ensures Spaced(ps + [p]) == Spaced(ps) + " " + p
  {
    if ps == [] {
      assert ps + [p] == [p];
      assert Spaced([p]) == " " + p + Spaced([p][1..]);
    } else {
      assert (ps + [p])[1..] == ps[1..] + [p];
      SpacedSnoc(ps[1..], p);
    }
  }

  lemma {:induction false} SpacedAppend(ps: seq<string>, qs: seq<string>)
    ensures Spaced(ps + qs) == Spaced(ps) + Spaced(qs)
  {
    if ps == [] {
      assert ps + qs == qs;
    } else {
      assert (ps + qs)[1..] == ps[1..] + qs;
      SpacedAppend(ps[1..], qs);
    }
  }

  // Splitting a written line gives back what was written.
  lemma {:induction false} WordsOfLine(w: string, ps: seq<string>)
    requires IsWord(w)
    requires forall p <- ps :: IsWord(p)
    ensures Words(w + Spaced(ps)) == [w] + ps
    decreases |ps|
  {
    var line := w + Spaced(ps);
    FindAppend(w, Spaced(ps), ' ');
    assert line[..|w|] == w && line[|w|..] == Spaced(ps);
    if ps == [] {
    } else {
      assert Spaced(ps)[1..] == ps[0] + Spaced(ps[1..]);
      WordsOfLine(ps[0], ps[1..]);
    }
  }

  // ---- %u and atoi ----

  function Digit(d: nat): char
    requires d < 10
  {
    ('0' as int + d) as char
  }

  predicate IsDigit(c: char) {
    '0' <= c <= '9'
  }

  function Decimal(n: nat): (s: string)
    ensures s != "" && forall c <- s :: IsDigit(c)
  {
    if n < 10 then [Digit(n)] else Decimal(n / 10) + [Digit(n % 10)]
  }

  // Reads digits up to the first other character.
  function Digits(s: string, acc: nat): nat {
    if s == "" || !IsDigit(s[0]) then acc else Digits(s[1..], 10 * acc + (s[0] as int - '0' as int))
  }

  // atoi without overflow, which C leaves undefined.
  function Atoi(s: string): int {
    if s == "" then 0
    else if s[0] == ' ' || '\t' <= s[0] <= '\r' then Atoi(s[1..])
    else if s[0] == '-' then 0 - Digits(s[1..], 0)
    else if s[0] == '+' then Digits(s[1..], 0)
    else Digits(s, 0)
  }

  lemma {:induction false} DigitsSnoc(s: string, c: char, acc: nat)
    requires IsDigit(c) && forall d <- s :: IsDigit(d)
    ensures Digits(s + [c], acc) == 10 * Digits(s, acc) + (c as int - '0' as int)
  {
    if s == "" {
      assert s + [c] == [c];
      assert [c][1..] == "";
    } else {
      assert (s + [c])[1..] == s[1..] + [c];
      assert IsDigit(s[0]);
      DigitsSnoc(s[1..], c, 10 * acc + (s[0] as int - '0' as int));
    }
  }

  // Reading a printed number gives the number.
  lemma {:induction false} AtoiDecimal(n: nat)
    ensures Atoi(Decimal(n)) == n == Digits(Decimal(n), 0)
  {
    if n < 10 {
      assert Decimal(n)[1..] == "";
      assert Digits("", n) == n;
    } else {
      AtoiDecimal(n / 10);
      DigitsSnoc(Decimal(n / 10), Digit(n % 10), 0);
    }
    var first := Decimal(n)[0];
    assert first in Decimal(n) && IsDigit(first);
  }

  function Pow10(k: nat): nat {
    if k == 0 then 1 else 10 * Pow10(k - 1)
  }

  lemma {:induction false} DecimalLength(n: nat, k: nat)
    requires k > 0 && n < Pow10(k)
    ensures |Decimal(n)| <= k
  {
    if n >= 10 {
      DecimalLength(n / 10, k - 1);
    }
  }
}
