// Case mapping of IRC names (libathemecore/match.c).
module CaseMap {

  // The two values of match_mapping.
  datatype Mapping = Rfc1459 | Ascii

  function Shift(c: char, offset: int): char
    requires 0 <= c as int + offset < 0x80
  {
    (c as int + offset) as char
  }

  function ToLower(m: Mapping, c: char): char {
    if 'A' <= c <= (if m.Ascii? then 'Z' else '^') then Shift(c, 32) else c
  }

  function ToUpper(m: Mapping, c: char): char {
    if 'a' <= c <= (if m.Ascii? then 'z' else '~') then Shift(c, -32) else c
  }

  // irccasecmp folds with ToUpper, match folds with ToLower: both identify the same characters.
  lemma FoldsAgree(m: Mapping, a: char, b: char)
    ensures ToUpper(m, a) == ToUpper(m, b) <==> ToLower(m, a) == ToLower(m, b)
  {
    assert a as int == b as int ==> a == b;
  }

  // An upper case character and its lower case.
  predicate CasePair(m: Mapping, upper: char, lower: char) {
    || ('A' <= upper <= 'Z' && lower as int == upper as int + 'a' as int - 'A' as int)
    || (m.Rfc1459? && (upper, lower) in [('[', '{'), ('\\', '|'), (']', '}'), ('^', '~')])
  }

  // Two characters fold alike exactly if they are the same or a pair.
  lemma FoldsExactly(m: Mapping, a: char, b: char)
    ensures ToLower(m, a) == ToLower(m, b) <==> a == b || CasePair(m, a, b) || CasePair(m, b, a)
  {
    assert a as int == b as int ==> a == b;
    PairsBehindZ(a, b);
    PairsBehindZ(b, a);
  }

  lemma PairsBehindZ(upper: char, lower: char)
    ensures (upper, lower) in [('[', '{'), ('\\', '|'), (']', '}'), ('^', '~')] <==>
      'Z' < upper <= '^' && lower as int == upper as int + 32
  {
    assert upper as int == '[' as int || upper as int == '\\' as int || upper as int == ']' as int || upper as int == '^' as int
      || upper <= 'Z' || '^' < upper;
    assert [('[', '{'), ('\\', '|'), (']', '}'), ('^', '~')][0] == ('[', '{');
    assert [('[', '{'), ('\\', '|'), (']', '}'), ('^', '~')][1] == ('\\', '|');
    assert [('[', '{'), ('\\', '|'), (']', '}'), ('^', '~')][2] == (']', '}');
    assert [('[', '{'), ('\\', '|'), (']', '}'), ('^', '~')][3] == ('^', '~');
  }

  function Upcase(m: Mapping, s: string): (r: string) {
    seq(|s|, i requires 0 <= i < |s| => ToUpper(m, s[i]))
  }

  // irccasecmp(a, b) == 0
  predicate SameName(m: Mapping, a: string, b: string) {
    Upcase(m, a) == Upcase(m, b)
  }
}
