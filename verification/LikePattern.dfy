/** Escaping a name for a LIKE pattern, against the meaning PostgreSQL gives such patterns. */
module LikePattern {

  // ---------------------------------------------------------------- LIKE

  /**
   * LIKE with a backslash as the escape character: percent stands for any string, underscore for
   * any one character, a backslash for the character after it.
   */
  predicate Like(s: string, p: string)
    decreases |s| + |p|
  {
    if p == [] then s == []
    else if p[0] == '%' then Like(s, p[1..]) || (s != [] && Like(s[1..], p))
    else if p[0] == '_' then s != [] && Like(s[1..], p[1..])
    else if p[0] == '\\' then |p| > 1 && s != [] && s[0] == p[1] && Like(s[1..], p[2..])
    else s != [] && s[0] == p[0] && Like(s[1..], p[1..])
  }

  /** No escape character is left without a character to escape; such a pattern is an error. */
  predicate WellEscaped(p: string) {
    p == [] || (if p[0] == '\\' then |p| > 1 && WellEscaped(p[2..]) else WellEscaped(p[1..]))
  }

  /** The name occurs in the string as it is. */
  ghost predicate Contains(s: string, name: string) {
    exists i :: 0 <= i <= |s| && name <= s[i..]
  }

  // ---------------------------------------------------------------- escaping

  predicate Special(c: char) { c == '%' || c == '_' || c == '\\' }

  function EscapeChar(c: char): string {
    if Special(c) then ['\\', c] else [c]
  }

  function Escape(value: string): string {
    if value == [] then [] else Escape(value[..|value| - 1]) + EscapeChar(value[|value| - 1])
  }

  method EscapeLikePattern(value: string) returns (escaped: string)
    ensures escaped == Escape(value)
  {
    escaped := [];
    for k := 0 to |value|
      invariant escaped == Escape(value[..k])
    {
      assert value[..k + 1][..k] == value[..k];
      match value[k]
      case '%' => escaped := escaped + "\\%";
      case '_' => escaped := escaped + "\\_";
      case '\\' => escaped := escaped + "\\\\";
      case c => escaped := escaped + [c];
    }
    assert value[..|value|] == value;
  }

  function ContainsPattern(name: string): string {
    "%" + Escape(name) + "%"
  }

  lemma {:induction false} EscapeFromFront(value: string)
    requires value != []
    ensures Escape(value) == EscapeChar(value[0]) + Escape(value[1..])
    decreases |value|
  {
    if |value| > 1 {
      EscapeFromFront(value[..|value| - 1]);
      assert value[..|value| - 1][1..] == value[1..][..|value[1..]| - 1];
    }
  }

  // ---------------------------------------------------------------- what the pattern matches

  lemma {:induction false} EscapedMatchesLiterally(s: string, name: string, rest: string)
    ensures Like(s, Escape(name) + rest) <==> name <= s && Like(s[|name|..], rest)
    decreases |name|
  {
    if name == [] {
      assert Escape(name) + rest == rest;
    } else {
      EscapeFromFront(name);
      var tail := Escape(name[1..]) + rest;
      assert Escape(name) + rest == EscapeChar(name[0]) + tail;
      OneEscapedMatchesLiterally(s, name[0], tail);
      PrefixFromFront(name, s);
      if s != [] {
        EscapedMatchesLiterally(s[1..], name[1..], rest);
        if name <= s { assert s[1..][|name| - 1..] == s[|name|..]; }
      }
    }
  }

  lemma OneEscapedMatchesLiterally(s: string, c: char, tail: string)
    ensures Like(s, EscapeChar(c) + tail) <==> s != [] && s[0] == c && Like(s[1..], tail)
  {
  }

  lemma PrefixFromFront(name: string, s: string)
    requires name != []
    ensures name <= s <==> s != [] && s[0] == name[0] && name[1..] <= s[1..]
  {
  }

  lemma {:induction false} PercentMatchesAnyPrefix(s: string, p: string)
    ensures Like(s, "%" + p) <==> exists i :: 0 <= i <= |s| && Like(s[i..], p)
    decreases |s|
  {
    var q := "%" + p;
    assert q[1..] == p && s[0..] == s;
    if s != [] {
      PercentMatchesAnyPrefix(s[1..], p);
      forall i | 0 <= i <= |s[1..]| ensures s[1..][i..] == s[i + 1..] {
      }
      if Like(s[1..], q) {
        var i :| 0 <= i <= |s[1..]| && Like(s[1..][i..], p);
        assert Like(s[i + 1..], p);
      }
      if i :| 0 < i <= |s| && Like(s[i..], p) {
        assert s[1..][i - 1..] == s[i..];
      }
    }
  }

  lemma {:induction false} PercentMatchesAll(s: string)
    ensures Like(s, "%")
    decreases |s|
  {
    if s != [] { PercentMatchesAll(s[1..]); }
  }

  /** The pattern matches exactly the strings that contain the name as it is. */
  lemma PatternMatchesContaining(s: string, name: string)
    ensures Like(s, ContainsPattern(name)) <==> Contains(s, name)
  {
    var p := Escape(name) + "%";
    assert ContainsPattern(name) == "%" + p;
    PercentMatchesAnyPrefix(s, p);
    forall i | 0 <= i <= |s| ensures Like(s[i..], p) <==> name <= s[i..] {
      EscapedMatchesLiterally(s[i..], name, "%");
      if name <= s[i..] { PercentMatchesAll(s[i..][|name|..]); }
    }
  }

  lemma {:induction false} EscapeIsWellEscaped(name: string, rest: string)
    requires WellEscaped(rest)
    ensures WellEscaped(Escape(name) + rest)
    decreases |name|
  {
    if name == [] {
      assert Escape(name) + rest == rest;
    } else {
      EscapeFromFront(name);
      EscapeIsWellEscaped(name[1..], rest);
      EscapedCharIsWellEscaped(name[0], Escape(name[1..]) + rest);
      assert Escape(name) + rest == EscapeChar(name[0]) + (Escape(name[1..]) + rest);
    }
  }

  lemma EscapedCharIsWellEscaped(c: char, tail: string)
    requires WellEscaped(tail)
    ensures WellEscaped(EscapeChar(c) + tail)
  {
  }

  // ---------------------------------------------------------------- ILIKE

  /** Case folding keeps the three special characters, and makes no other character into one of them. */
  ghost predicate KeepsSpecials(fold: char -> string) {
    forall c :: if Special(c) then fold(c) == [c] else NoSpecials(fold(c))
  }

  predicate NoSpecials(s: string) {
    forall c :: c in s ==> !Special(c)
  }

  /** Folding goes character by character; what a character folds to may have any length. */
  function Fold(fold: char -> string, s: string): string {
    if s == [] then [] else Fold(fold, s[..|s| - 1]) + fold(s[|s| - 1])
  }

  /** ILIKE compares the folded string with the folded pattern. */
  predicate ILike(fold: char -> string, s: string, p: string) {
    Like(Fold(fold, s), Fold(fold, p))
  }

  lemma {:induction false} FoldConcat(fold: char -> string, s: string, t: string)
    ensures Fold(fold, s + t) == Fold(fold, s) + Fold(fold, t)
    decreases |t|
  {
    if t == [] {
      assert s + t == s;
    } else {
      FoldConcat(fold, s, t[..|t| - 1]);
      assert (s + t)[..|s + t| - 1] == s + t[..|t| - 1];
    }
  }

  lemma FoldOne(fold: char -> string, c: char)
    ensures Fold(fold, [c]) == fold(c)
  {
    assert [c][..0] == [];
  }

  lemma {:induction false} EscapeConcat(s: string, t: string)
    ensures Escape(s + t) == Escape(s) + Escape(t)
    decreases |t|
  {
    if t == [] {
      assert s + t == s;
    } else {
      EscapeConcat(s, t[..|t| - 1]);
      assert (s + t)[..|s + t| - 1] == s + t[..|t| - 1];
    }
  }

  lemma {:induction false} NothingToEscape(s: string)
    requires NoSpecials(s)
    ensures Escape(s) == s
    decreases |s|
  {
    if s != [] {
      assert s[|s| - 1] in s;
      NothingToEscape(s[..|s| - 1]);
      assert s == s[..|s| - 1] + [s[|s| - 1]];
    }
  }

  lemma {:induction false} FoldEscape(fold: char -> string, name: string)
    requires KeepsSpecials(fold)
    ensures Fold(fold, Escape(name)) == Escape(Fold(fold, name))
    decreases |name|
  {
    if name != [] {
      var front, c := name[..|name| - 1], name[|name| - 1];
      FoldEscape(fold, front);
      FoldConcat(fold, Escape(front), EscapeChar(c));
      FoldEscapeChar(fold, c);
      EscapeConcat(Fold(fold, front), fold(c));
    }
  }

  lemma FoldEscapeChar(fold: char -> string, c: char)
    requires KeepsSpecials(fold)
    ensures Fold(fold, EscapeChar(c)) == Escape(fold(c))
  {
    if Special(c) {
      assert Special('\\') && fold('\\') == "\\" && fold(c) == [c];
      assert ['\\', c] == ['\\'] + [c];
      FoldConcat(fold, ['\\'], [c]);
      FoldOne(fold, '\\');
      FoldOne(fold, c);
      assert [c][..0] == [];
      assert Escape([c]) == EscapeChar(c);
    } else {
      FoldOne(fold, c);
      NothingToEscape(fold(c));
    }
  }

  lemma FoldPattern(fold: char -> string, name: string)
    requires KeepsSpecials(fold)
    ensures Fold(fold, ContainsPattern(name)) == ContainsPattern(Fold(fold, name))
  {
    FoldEscape(fold, name);
    FoldConcat(fold, "%", Escape(name));
    FoldConcat(fold, "%" + Escape(name), "%");
    assert Special('%') && fold('%') == "%";
    FoldOne(fold, '%');
  }

  /** The filter of the user list: names that contain the search term, up to case; never an error. */
  lemma FilterMatchesContaining(fold: char -> string, localpart: string, name: string)
    requires KeepsSpecials(fold)
    ensures WellEscaped(ContainsPattern(name))
    ensures ILike(fold, localpart, ContainsPattern(name)) <==> Contains(Fold(fold, localpart), Fold(fold, name))
  {
    EscapeIsWellEscaped(name, "%");
    assert ContainsPattern(name)[1..] == Escape(name) + "%";
    FoldPattern(fold, name);
    PatternMatchesContaining(Fold(fold, localpart), Fold(fold, name));
  }
}
