/** Quoted strings in HTTP headers: writing one, and reading it back as a parameter value. */
module QuotedString {
  import opened Orders

  // ---------------------------------------------------------------- characters

  predicate IsAlphanumeric(c: char) {
    'a' <= c <= 'z' || 'A' <= c <= 'Z' || '0' <= c <= '9'
  }

  predicate IsTchar(c: char) {
    IsAlphanumeric(c) || c in "!#$%&'*+-.^_`|~"
  }

  predicate IsToken(s: string) {
    forall c :: c in s ==> IsTchar(c)
  }

  predicate IsVchar(c: char) { '\U{21}' <= c <= '\U{7E}' }

  predicate IsQuotable(c: char) { IsVchar(c) || c == '\t' || c == ' ' }

  predicate IsSpace(c: char) { c == ' ' || c == '\t' || c == '\n' || c == '\U{0C}' || c == '\r' }

  // ---------------------------------------------------------------- writing

  function Sanitize(s: string): string {
    if s == [] then [] else (if IsQuotable(s[0]) then [s[0]] else []) + Sanitize(s[1..])
  }

  /** Put `with` in place of every occurrence of `c`. */
  function Replace(s: string, c: char, with: string): string {
    if s == [] then [] else (if s[0] == c then with else [s[0]]) + Replace(s[1..], c, with)
  }

  /** The text between the quotes: backslashes are doubled first, then quotes get a backslash. */
  function EscapeQuoted(value: string): string {
    Replace(Replace(value, '\\', "\\\\"), '"', "\\\"")
  }

  function Quote(value: string): string {
    if value != [] && IsToken(value) then value else "\"" + EscapeQuoted(value) + "\""
  }

  // ---------------------------------------------------------------- reading

  /** Drop each backslash that is not itself escaped; `escaped` says whether the next one is. */
  function UnescapeFrom(s: string, escaped: bool): string {
    if s == [] then []
    else
      var drop := s[0] == '\\' && !escaped;
      (if drop then [] else [s[0]]) + UnescapeFrom(s[1..], drop)
  }

  method UnescapeString(s: string) returns (r: string)
    ensures r == UnescapeFrom(s, false)
  {
    r := [];
    var isEscaped := false;
    for k := 0 to |s|
      invariant UnescapeFrom(s, false) == r + UnescapeFrom(s[k..], isEscaped)
    {
      UnescapeStep(s, k, r, isEscaped);
      isEscaped := s[k] == '\\' && !isEscaped;
      if !isEscaped { r := r + [s[k]]; }
    }
    assert s[|s|..] == [];
  }

  lemma UnescapeStep(s: string, k: nat, r: string, escaped: bool)
    requires k < |s|
    ensures var drop := s[k] == '\\' && !escaped;
      r + UnescapeFrom(s[k..], escaped) == (if drop then r else r + [s[k]]) + UnescapeFrom(s[k + 1..], drop)
  {
  }

  function SkipSpaces(s: string): string {
    if s != [] && IsSpace(s[0]) then SkipSpaces(s[1..]) else s
  }

  /** Where a value ends: a quoted one at the first quote not escaped, another at a space or semicolon. */
  function ValueLength(s: string, quoted: bool, escaped: bool): (n: nat)
    ensures n <= |s|
  {
    if s == [] then 0
    else if !quoted && (IsSpace(s[0]) || s[0] == ';') then 0
    else if quoted && s[0] == '"' && !escaped then 0
    else 1 + ValueLength(s[1..], quoted, s[0] == '\\' && !escaped)
  }

  /** A parameter value, raw, with whether it was quoted. */
  datatype RawValue = RawValue(text: string, quoted: bool) {
    function Decode(): string { if quoted then UnescapeFrom(text, false) else text }
  }

  /** What is left after a value: past the separator, or nothing and an error without one. */
  function AfterValue(rest: string): Option<string> {
    var s := SkipSpaces(rest);
    if s == [] then Some([]) else if s[0] == ';' then Some(s[1..]) else None
  }

  function ParseHere(t: string): (Option<RawValue>, string)
    requires t != []
  {
    var quoted := t[0] == '"';
    var body := if quoted then t[1..] else t;
    var n := ValueLength(body, quoted, false);
    var end := if quoted && n < |body| then n + 1 else n;
    var after := AfterValue(body[end..]);
    if after.None? then (None, []) else (Some(RawValue(body[..n], quoted)), after.value)
  }

  /** The value at the start of the text, spaces skipped, and the text after it. */
  function ParseValue(s: string): (Option<RawValue>, string) {
    var t := SkipSpaces(s);
    if t == [] then (None, []) else ParseHere(t)
  }

  method SkipAsciiWhitespaces(bytes: string, start: nat) returns (pos: nat)
    requires start <= |bytes|
    ensures start <= pos <= |bytes| && bytes[pos..] == SkipSpaces(bytes[start..])
  {
    pos := start;
    while pos < |bytes|
      invariant start <= pos <= |bytes| && SkipSpaces(bytes[pos..]) == SkipSpaces(bytes[start..])
    {
      if !IsSpace(bytes[pos]) { break; }
      pos := pos + 1;
    }
  }

  method FindValueEnd(bytes: string, begin: nat, quoted: bool) returns (pos: nat)
    requires begin <= |bytes|
    ensures pos == begin + ValueLength(bytes[begin..], quoted, false)
  {
    pos := begin;
    var escapeNext := false;
    while pos < |bytes|
      invariant begin <= pos <= |bytes|
      invariant ValueLength(bytes[begin..], quoted, false) == pos - begin + ValueLength(bytes[pos..], quoted, escapeNext)
    {
      var byte := bytes[pos];
      if !quoted && (IsSpace(byte) || byte == ';') { break; }
      if quoted && byte == '"' && !escapeNext { break; }
      escapeNext := byte == '\\' && !escapeNext;
      pos := pos + 1;
    }
  }

  /** The separator after a value, or the end of the text. */
  method SkipSeparator(bytes: string, start: nat) returns (found: bool, pos: nat)
    requires start <= |bytes|
    ensures start <= pos <= |bytes| && (found <==> AfterValue(bytes[start..]).Some?)
    ensures if found then Some(bytes[pos..]) == AfterValue(bytes[start..]) else pos == |bytes|
  {
    pos := SkipAsciiWhitespaces(bytes, start);
    if pos == |bytes| { return true, pos; }
    if bytes[pos] == ';' { return true, pos + 1; }
    return false, |bytes|;
  }

  method ParseParamValue(bytes: string, start: nat) returns (r: Option<RawValue>, pos: nat)
    requires start <= |bytes|
    ensures start <= pos <= |bytes| && (r, bytes[pos..]) == ParseValue(bytes[start..])
  {
    pos := SkipAsciiWhitespaces(bytes, start);
    if pos == |bytes| { return None, pos; }
    r, pos := ParseAt(bytes, pos);
  }

  /** The value that starts right here. */
  method ParseAt(bytes: string, start: nat) returns (r: Option<RawValue>, pos: nat)
    requires start < |bytes|
    ensures start <= pos <= |bytes| && (r, bytes[pos..]) == ParseHere(bytes[start..])
  {
    var quoted := bytes[start] == '"';
    var begin := if quoted then start + 1 else start;
    ghost var t := bytes[start..];
    ghost var body := if quoted then t[1..] else t;
    assert body == bytes[begin..];
    pos := FindValueEnd(bytes, begin, quoted);
    ghost var n := pos - begin;
    var value := bytes[begin..pos];
    assert body[..n] == value;
    if quoted && pos != |bytes| { pos := pos + 1; }
    assert body[pos - begin..] == bytes[pos..];
    var found;
    found, pos := SkipSeparator(bytes, pos);
    if !found {
      assert bytes[pos..] == [];
      return None, pos;
    }
    r := Some(RawValue(value, quoted));
  }

  // ---------------------------------------------------------------- the round trip

  function EscapeOne(c: char): string {
    if c == '\\' then "\\\\" else if c == '"' then "\\\"" else [c]
  }

  /** Escaping in one pass. */
  function EscapeOnce(value: string): string {
    if value == [] then [] else EscapeOne(value[0]) + EscapeOnce(value[1..])
  }

  lemma {:induction false} ReplaceConcat(s: string, t: string, c: char, with: string)
    ensures Replace(s + t, c, with) == Replace(s, c, with) + Replace(t, c, with)
    decreases |s|
  {
    if s == [] {
      assert s + t == t;
    } else {
      assert (s + t)[1..] == s[1..] + t;
      ReplaceConcat(s[1..], t, c, with);
    }
  }

  /** The two chained replacements never touch each other's output. */
  lemma {:induction false} ChainedReplacesAreOnePass(value: string)
    ensures EscapeQuoted(value) == EscapeOnce(value)
    decreases |value|
  {
    if value != [] {
      var c, tail := value[0], value[1..];
      var head := if c == '\\' then "\\\\" else [c];
      ReplaceConcat(head, Replace(tail, '\\', "\\\\"), '"', "\\\"");
      ChainedReplacesAreOnePass(tail);
      ReplaceHead(c);
    }
  }

  lemma ReplaceHead(c: char)
    ensures Replace(if c == '\\' then "\\\\" else [c], '"', "\\\"") == EscapeOne(c)
  {
    var q := "\\\"";
    assert Replace([c], '"', q) == (if c == '"' then q else [c]) + Replace([c][1..], '"', q);
    if c == '\\' {
      assert "\\\\"[1..] == ['\\'];
    }
  }

  lemma {:induction false} UnescapeUndoesEscape(value: string)
    ensures UnescapeFrom(EscapeOnce(value), false) == value
    decreases |value|
  {
    if value != [] {
      UnescapeUndoesEscape(value[1..]);
      UnescapeOne(value[0], EscapeOnce(value[1..]));
    }
  }

  lemma UnescapeOne(c: char, tail: string)
    ensures UnescapeFrom(EscapeOne(c) + tail, false) == [c] + UnescapeFrom(tail, false)
  {
  }

  /** A reader that looks for the first quote not escaped stops at the closing quote. */
  lemma {:induction false} ClosingQuoteIsFirst(value: string, rest: string)
    ensures ValueLength(EscapeOnce(value) + "\"" + rest, true, false) == |EscapeOnce(value)|
    decreases |value|
  {
    var s := EscapeOnce(value) + "\"" + rest;
    if value == [] {
      assert s[0] == '"';
    } else {
      ClosingQuoteIsFirst(value[1..], rest);
      var tail := EscapeOnce(value[1..]) + "\"" + rest;
      assert s == EscapeOne(value[0]) + tail;
      if |EscapeOne(value[0])| == 2 {
        assert s[1..] == [value[0]] + tail && s[1..][1..] == tail;
      } else {
        assert s[1..] == tail;
      }
    }
  }

  lemma {:induction false} TokenEndsAtSeparator(token: string, rest: string, escaped: bool)
    requires IsToken(token) && (rest == [] || IsSpace(rest[0]) || rest[0] == ';')
    ensures ValueLength(token + rest, false, escaped) == |token|
    decreases |token|
  {
    if token == [] {
      assert token + rest == rest;
    } else {
      assert token[0] in token && (token + rest)[1..] == token[1..] + rest;
      TokenEndsAtSeparator(token[1..], rest, false);
    }
  }

  lemma TokenReadsBack(value: string, rest: string)
    requires AfterValue(rest).Some? && value != [] && IsToken(value)
    ensures ParseValue(value + rest) == (Some(RawValue(value, false)), AfterValue(rest).value)
  {
    var s := value + rest;
    assert value[0] in value && s[0] == value[0];
    TokenEndsAtSeparator(value, rest, false);
    assert s[..|value|] == value && s[|value|..] == rest;
  }

  lemma QuotedReadsBack(inner: string, rest: string)
    requires AfterValue(rest).Some? && ValueLength(inner + "\"" + rest, true, false) == |inner|
    ensures ParseValue("\"" + inner + "\"" + rest) == (Some(RawValue(inner, true)), AfterValue(rest).value)
  {
    var s := "\"" + inner + "\"" + rest;
    QuotedSlices(inner, rest);
    NoSpacesToSkip(s);
    QuotedReadsHere(s, |inner|);
  }

  lemma QuotedSlices(inner: string, rest: string)
    ensures var s := "\"" + inner + "\"" + rest;
      && s[0] == '"' && |s| == |inner| + 2 + |rest| && s[1..] == inner + "\"" + rest
      && s[1..|inner| + 1] == inner && s[|inner| + 2..] == rest
  {
  }

  lemma NoSpacesToSkip(t: string)
    requires t != [] && t[0] == '"'
    ensures ParseValue(t) == ParseHere(t)
  {
  }

  lemma QuotedReadsHere(t: string, n: nat)
    requires t != [] && t[0] == '"' && n + 1 < |t| && ValueLength(t[1..], true, false) == n
    requires AfterValue(t[n + 2..]).Some?
    ensures ParseHere(t) == (Some(RawValue(t[1..n + 1], true)), AfterValue(t[n + 2..]).value)
  {
    assert t[1..][..n] == t[1..n + 1] && t[1..][n + 1..] == t[n + 2..];
  }

  /**
   * Every value written by the quoting is read back as it was, and reading goes on after the
   * separator, when the value is followed by the end or by a separator, spaces allowed before it.
   */
  lemma QuotedValueReadsBack(value: string, rest: string)
    requires AfterValue(rest).Some?
    ensures var (raw, after) := ParseValue(Quote(value) + rest);
      raw.Some? && raw.value.Decode() == value && after == AfterValue(rest).value
  {
    if value != [] && IsToken(value) {
      TokenReadsBack(value, rest);
    } else {
      ChainedReplacesAreOnePass(value);
      UnescapeUndoesEscape(value);
      ClosingQuoteIsFirst(value, rest);
      QuotedReadsBack(EscapeOnce(value), rest);
    }
  }

  // ---------------------------------------------------------------- well-formed output

  predicate IsQdtext(c: char) { IsQuotable(c) && c != '"' && c != '\\' }

  /** The inside of a quoted string by the grammar: plain text, or a backslash and a character. */
  predicate IsQuotedContent(s: string) {
    s == [] ||
    (if s[0] == '\\' then |s| > 1 && IsQuotable(s[1]) && IsQuotedContent(s[2..])
     else IsQdtext(s[0]) && IsQuotedContent(s[1..]))
  }

  lemma {:induction false} EscapedIsQuotedContent(value: string)
    requires forall c :: c in value ==> IsQuotable(c)
    ensures IsQuotedContent(EscapeOnce(value))
    decreases |value|
  {
    if value != [] {
      assert value[0] in value;
      EscapedIsQuotedContent(value[1..]);
      var s, tail := EscapeOnce(value), EscapeOnce(value[1..]);
      assert s[|EscapeOne(value[0])|..] == tail;
    }
  }

  lemma {:induction false} SanitizedIsQuotable(s: string)
    ensures forall c :: c in Sanitize(s) ==> IsQuotable(c)
    ensures (forall c :: c in s ==> IsQuotable(c)) ==> Sanitize(s) == s
    decreases |s|
  {
    if s != [] {
      SanitizedIsQuotable(s[1..]);
      assert s == [s[0]] + s[1..];
    }
  }

  /** A sanitized value is written as a token or as a quoted string of the grammar. */
  lemma SanitizedQuoteIsWellFormed(s: string)
    ensures var q := Quote(Sanitize(s));
      (q != [] && IsToken(q)) || (exists inner :: q == "\"" + inner + "\"" && IsQuotedContent(inner))
  {
    var value := Sanitize(s);
    SanitizedIsQuotable(s);
    if !(value != [] && IsToken(value)) {
      ChainedReplacesAreOnePass(value);
      EscapedIsQuotedContent(value);
    }
  }

  // ---------------------------------------------------------------- what the functions mean

  /** Token characters, by section 5.6.2 of RFC 9110: visible characters that are not delimiters. */
  lemma TcharMeans(c: char)
    ensures IsTchar(c) <==> '!' <= c <= '~' && c !in "\"(),/:;<=>?@[\\]{}"
  {
  }

  /** Sanitizing keeps the visible characters, tabs and spaces, in order, and nothing else. */
  lemma {:induction false} SanitizeMeans(s: string, c: char)
    ensures Sanitize([]) == []
    ensures Sanitize(s + [c]) == Sanitize(s) + (if c == '\t' || ' ' <= c <= '~' then [c] else [])
    decreases |s|
  {
    if s == [] {
      assert s + [c] == [c] && [c][1..] == [];
    } else {
      var head := if IsQuotable(s[0]) then [s[0]] else [];
      SanitizeMeans(s[1..], c);
      assert (s + [c])[1..] == s[1..] + [c] && (s + [c])[0] == s[0];
      var more := if c == '\t' || ' ' <= c <= '~' then [c] else [];
      assert head + (Sanitize(s[1..]) + more) == head + Sanitize(s[1..]) + more;
    }
  }

  /** A value is quoted only if it has to be: if it is empty or has a character that is not a token character. */
  lemma QuotedOnlyIfRequired(value: string)
    ensures Quote(value) == value <==> value != [] && forall c :: c in value ==> IsTchar(c)
    ensures Quote(value) != value ==> |Quote(value)| >= 2 && Quote(value)[0] == '"' && Quote(value)[|Quote(value)| - 1] == '"'
  {
    if !(value != [] && IsToken(value)) && Quote(value) == value {
      assert value[0] == '"' && value[|value| - 1] == '"';
      ChainedReplacesAreOnePass(value);
      EscapingGrows(value);
    }
  }

  lemma {:induction false} EscapingGrows(value: string)
    ensures |EscapeOnce(value)| >= |value|
    decreases |value|
  {
    if value != [] { EscapingGrows(value[1..]); }
  }

  /** A character that follows is escaped: an odd number of backslashes comes before it. */
  predicate EndsEscaping(s: string, escaped: bool) {
    if s == [] then escaped else s[|s| - 1] == '\\' && !EndsEscaping(s[..|s| - 1], escaped)
  }

  lemma {:induction false} EndsEscapingCons(c: char, s: string, escaped: bool)
    ensures EndsEscaping([c] + s, escaped) == EndsEscaping(s, c == '\\' && !escaped)
    decreases |s|
  {
    if s == [] {
      assert [c] + s == [c] && [c][..0] == [];
    } else {
      EndsEscapingCons(c, s[..|s| - 1], escaped);
      assert ([c] + s)[..|s|] == [c] + s[..|s| - 1];
    }
  }

  /** Unescaping drops exactly the backslashes that are not escaped themselves. */
  lemma {:induction false} UnescapeMeans(s: string, c: char, escaped: bool)
    ensures UnescapeFrom([], escaped) == []
    ensures UnescapeFrom(s + [c], escaped)
         == UnescapeFrom(s, escaped) + (if c == '\\' && !EndsEscaping(s, escaped) then [] else [c])
    decreases |s|
  {
    if s == [] {
      assert s + [c] == [c] && [c][1..] == [];
    } else {
      var drop := s[0] == '\\' && !escaped;
      UnescapeMeans(s[1..], c, drop);
      assert (s + [c])[1..] == s[1..] + [c] && s == [s[0]] + s[1..];
      EndsEscapingCons(s[0], s[1..], escaped);
    }
  }

  /** A quoted value ends at the first quote that is not escaped, or with the text. */
  lemma {:induction false} QuotedValueEnds(s: string, escaped: bool)
    ensures var n := ValueLength(s, true, escaped);
      && (n < |s| ==> s[n] == '"' && !EndsEscaping(s[..n], escaped))
      && (forall i :: 0 <= i < n && s[i] == '"' ==> EndsEscaping(s[..i], escaped))
    decreases |s|
  {
    if s != [] && !(s[0] == '"' && !escaped) {
      var drop := s[0] == '\\' && !escaped;
      QuotedValueEnds(s[1..], drop);
      forall i | 0 <= i < |s| ensures EndsEscaping(s[..i + 1], escaped) == EndsEscaping(s[1..][..i], drop) {
        assert s[..i + 1] == [s[0]] + s[1..][..i];
        EndsEscapingCons(s[0], s[1..][..i], escaped);
      }
    }
  }

  /** Another value ends before the first space or semicolon, or with the text. */
  lemma {:induction false} PlainValueEnds(s: string, escaped: bool)
    ensures var n := ValueLength(s, false, escaped);
      && (n < |s| ==> IsSpace(s[n]) || s[n] == ';')
      && (forall i :: 0 <= i < n ==> !IsSpace(s[i]) && s[i] != ';')
    decreases |s|
  {
    if s != [] && !(IsSpace(s[0]) || s[0] == ';') { PlainValueEnds(s[1..], s[0] == '\\' && !escaped); }
  }

  /** Spaces are skipped up to the first character that is none. */
  lemma {:induction false} SkipSpacesMeans(s: string) returns (k: nat)
    ensures k <= |s| && SkipSpaces(s) == s[k..]
    ensures (forall i :: 0 <= i < k ==> s[i] in " \t\n\U{0C}\r") && (k < |s| ==> s[k] !in " \t\n\U{0C}\r")
    decreases |s|
  {
    k := 0;
    if s != [] && IsSpace(s[0]) {
      var j := SkipSpacesMeans(s[1..]);
      k := j + 1;
    }
  }

  /** After a value and spaces comes the end, or a semicolon, which is skipped; anything else is an error. */
  lemma AfterValueMeans(rest: string) returns (k: nat)
    ensures k <= |rest| && (forall i :: 0 <= i < k ==> IsSpace(rest[i])) && (k < |rest| ==> !IsSpace(rest[k]))
    ensures AfterValue(rest) == if k == |rest| then Some([]) else if rest[k] == ';' then Some(rest[k + 1..]) else None
  {
    k := SkipSpacesMeans(rest);
  }

  /** A quote never closed is closed by the end of the text. */
  lemma {:induction false} UnclosedValueReadsToTheEnd(body: string)
    requires ValueLength(body, true, false) == |body|
    ensures ParseValue("\"" + body) == (Some(RawValue(body, true)), [])
  {
    var t := "\"" + body;
    NoSpacesToSkip(t);
    assert t[1..] == body && body[|body|..] == [] && body[..|body|] == body;
    assert SkipSpaces([]) == [];
  }

  /** Without a separator after it the value is lost, and reading stops. */
  lemma MissingSeparatorStops(t: string)
    requires t != [] && t[0] != '"' && !IsSpace(t[0])
    requires AfterValue(t[ValueLength(t, false, false)..]).None?
    ensures ParseValue(t) == (None, [])
  {
  }

  /** Spaces before a value are skipped, and without a value there is nothing to read. */
  lemma LeadingSpacesAreSkipped(c: char, s: string)
    requires c in " \t\n\U{0C}\r"
    ensures ParseValue([c] + s) == ParseValue(s) && ParseValue([]) == (None, [])
  {
    assert ([c] + s)[1..] == s;
  }
}
