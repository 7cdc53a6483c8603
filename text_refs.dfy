/**
 * Rewriting of inline article references, `_update_text_refs`.
 *
 * The source substitutes every match of the regular expression
 * `\[ref=(.*?)\]` in a block text. A match starts at "[ref=", its captured
 * name runs lazily up to the first ']' and, since '.' does not match a line
 * feed, may not contain '\n'. Matches are found left to right and never
 * overlap. Each match becomes `[ref=<id>]` when the stripped name is a known
 * article and `[ref=]` otherwise.
 *
 * The model splits a text into pieces (single characters and markers) exactly
 * as the regular-expression scan does, proves that the split loses nothing and
 * is the only leftmost one, and substitutes markers piece by piece.
 */
module TextRefs {
  import opened Wrappers

  /** The characters Python's str.strip() removes (those for which str.isspace() holds). */
  predicate IsSpace(c: char) {
    || c == ' ' || ('\t' <= c <= '\r') || ('\U{1C}' <= c <= '\U{1F}')
    || c == '\U{85}' || c == '\U{A0}' || c == '\U{1680}' || ('\U{2000}' <= c <= '\U{200A}')
    || c == '\U{2028}' || c == '\U{2029}' || c == '\U{202F}' || c == '\U{205F}' || c == '\U{3000}'
  }

  /** The number of white-space characters `s` starts with. */
  function LeadingSpace(s: string): (n: nat)
    ensures n <= |s|
  {
    if |s| > 0 && IsSpace(s[0]) then 1 + LeadingSpace(s[1..]) else 0
  }

  /** The number of white-space characters `s` ends with. */
  function TrailingSpace(s: string): (n: nat)
    ensures n <= |s|
  {
    if |s| > 0 && IsSpace(s[|s| - 1]) then 1 + TrailingSpace(s[..|s| - 1]) else 0
  }

  /** str.strip(): drop the leading, then the trailing white space. */
  function Strip(s: string): string {
    var i := LeadingSpace(s);
    s[i..|s| - TrailingSpace(s[i..])]
  }

  /** The leading white space is all white space, and what follows it is not. */
  lemma {:induction false} LeadingSpaceIsSpace(s: string)
    ensures forall k :: 0 <= k < LeadingSpace(s) ==> IsSpace(s[k])
    ensures LeadingSpace(s) < |s| ==> !IsSpace(s[LeadingSpace(s)])
  {
    if |s| > 0 && IsSpace(s[0]) {
      LeadingSpaceIsSpace(s[1..]);
      assert forall k :: 1 <= k < |s| ==> s[k] == s[1..][k - 1];
    }
  }

  /** The trailing white space is all white space, and what precedes it is not. */
  lemma {:induction false} TrailingSpaceIsSpace(s: string)
    ensures forall k :: |s| - TrailingSpace(s) <= k < |s| ==> IsSpace(s[k])
    ensures TrailingSpace(s) < |s| ==> !IsSpace(s[|s| - TrailingSpace(s) - 1])
  {
    if |s| > 0 && IsSpace(s[|s| - 1]) {
      var p := s[..|s| - 1];
      TrailingSpaceIsSpace(p);
      assert forall k :: 0 <= k < |p| ==> p[k] == s[k];
    }
  }

  /** The trailing white space of a suffix of `s`, located in `s`. */
  lemma {:induction false} TrailingSpaceOfSuffix(s: string, i: nat)
    requires i <= |s|
    ensures forall k :: |s| - TrailingSpace(s[i..]) <= k < |s| ==> IsSpace(s[k])
    ensures TrailingSpace(s[i..]) < |s| - i ==> !IsSpace(s[|s| - TrailingSpace(s[i..]) - 1])
  {
    var t := s[i..];
    TrailingSpaceIsSpace(t);
    forall k | i <= k < |s| ensures s[k] == t[k - i] {
    }
  }

  /** The stripped text is the part of `s` between its leading and its
      trailing white space. */
  lemma {:induction false} StripBetween(s: string)
    ensures var i := LeadingSpace(s);
            var j := |s| - TrailingSpace(s[i..]);
            && i <= j && Strip(s) == s[i..j]
            && (forall k :: 0 <= k < i ==> IsSpace(s[k]))
            && (forall k :: j <= k < |s| ==> IsSpace(s[k]))
  {
    LeadingSpaceIsSpace(s);
    TrailingSpaceOfSuffix(s, LeadingSpace(s));
  }

  /** The stripped text neither starts nor ends with white space. */
  lemma {:induction false} StripTrimmed(s: string)
    ensures Strip(s) == [] || (!IsSpace(Strip(s)[0]) && !IsSpace(Strip(s)[|Strip(s)| - 1]))
  {
    var i := LeadingSpace(s);
    var j := |s| - TrailingSpace(s[i..]);
    LeadingSpaceIsSpace(s);
    TrailingSpaceOfSuffix(s, i);
    if i < j {
      assert Strip(s)[0] == s[i] && Strip(s)[|Strip(s)| - 1] == s[j - 1];
    }
  }

  /** Stripping a name that has no surrounding white space leaves it alone. */
  lemma {:induction false} StripUnpadded(s: string)
    requires s == [] || (!IsSpace(s[0]) && !IsSpace(s[|s| - 1]))
    ensures Strip(s) == s
  {
  }

  // ---------------------------------------------------------------- decimals

  predicate IsDigit(c: char) { '0' <= c <= '9' }

  function DigitValue(c: char): nat
    requires IsDigit(c)
  {
    c as int - '0' as int
  }

  /** The value of a string of decimal digits. */
  function DigitsValue(s: string): nat
    requires forall k :: 0 <= k < |s| ==> IsDigit(s[k])
  {
    if s == [] then 0 else 10 * DigitsValue(s[..|s| - 1]) + DigitValue(s[|s| - 1])
  }

  /** str(n) for a non-negative integer: its decimal digits, without leading zeros. */
  function Decimal(n: nat): (s: string)
    ensures |s| > 0
    ensures forall k :: 0 <= k < |s| ==> IsDigit(s[k])
    ensures s[0] == '0' ==> n == 0 && s == "0"
    ensures DigitsValue(s) == n
  {
    var last := ['0' + (n % 10) as char];
    if n < 10 then
      last
    else
      var s := Decimal(n / 10) + last;
      assert s[..|s| - 1] == Decimal(n / 10);
      s
  }

  // ---------------------------------------------------------------- markers

  const Open: string := "[ref="

  /** The index of the ']' that closes a marker whose name starts at `j`, if
      one is reached before any line feed. */
  function CloseAt(t: string, j: nat): (r: Option<nat>)
    requires j <= |t|
    decreases |t| - j
    ensures r.Some? ==> j <= r.value < |t| && t[r.value] == ']'
    ensures r.Some? ==> forall k :: j <= k < r.value ==> t[k] != ']' && t[k] != '\n'
  {
    if j == |t| then None
    else if t[j] == ']' then Some(j)
    else if t[j] == '\n' then None
    else
      CloseAt(t, j + 1)
  }

  /** A name the lazy group `(.*?)` can capture: no ']' and no line feed. */
  predicate ValidName(n: string) {
    forall k :: 0 <= k < |n| ==> n[k] != ']' && n[k] != '\n'
  }

  /** Where a marker starting at the front of `t` ends (the index of its ']'),
      or None when no match of the pattern starts there. */
  function MarkerAt(t: string): (r: Option<nat>)
    ensures r.Some? ==> 5 <= r.value < |t| && t[..5] == Open && t[r.value] == ']'
  {
    if |t| >= 5 && t[..5] == Open then CloseAt(t, 5) else None
  }

  /** A marker with a valid name matches, and ends at its own ']'. */
  lemma {:induction false} MarkerMatches(name: string, rest: string)
    requires ValidName(name)
    ensures MarkerAt(Open + name + "]" + rest) == Some(5 + |name|)
  {
    var t := Open + name + "]" + rest;
    assert t[..5] == Open;
    CloseReaches(t, 5, 5 + |name|);
  }

  lemma {:induction false} CloseReaches(t: string, j: nat, e: nat)
    requires j <= e < |t| && t[e] == ']'
    requires forall k :: j <= k < e ==> t[k] != ']' && t[k] != '\n'
    decreases e - j
    ensures CloseAt(t, j) == Some(e)
  {
    if j < e { CloseReaches(t, j + 1, e); }
  }

  // ---------------------------------------------------------------- pieces

  /** A piece of a scanned text: a character outside any marker, or a marker
      with its captured name. */
  datatype Piece = Char(c: char) | Marker(name: string)

  /** The text a piece was scanned from. */
  function Spelling(p: Piece): string {
    match p
    case Char(c) => [c]
    case Marker(n) => Open + n + "]"
  }

  /** The text a sequence of pieces was scanned from. */
  function Spell(ps: seq<Piece>): string {
    if ps == [] then [] else Spelling(ps[0]) + Spell(ps[1..])
  }

  /** Scan `t` left to right the way re.sub does: take a marker where one
      matches, otherwise keep one character and move on. */
  function Scan(t: string): seq<Piece>
    decreases |t|
  {
    if t == [] then []
    else match MarkerAt(t)
      case Some(e) => [Marker(t[5..e])] + Scan(t[e + 1..])
      case None => [Char(t[0])] + Scan(t[1..])
  }

  /** The pieces are the leftmost matches: every marker has a name the pattern
      can capture, and no match of the pattern starts at a kept character. */
  predicate Leftmost(ps: seq<Piece>) {
    forall i :: 0 <= i < |ps| ==>
      (ps[i].Marker? ==> ValidName(ps[i].name)) &&
      (ps[i].Char? ==> MarkerAt(Spell(ps[i..])).None?)
  }

  lemma {:induction false} SpellCons(p: Piece, ps: seq<Piece>)
    ensures Spell([p] + ps) == Spelling(p) + Spell(ps)
  {
    assert ([p] + ps)[1..] == ps;
  }

  /** A text that starts with a marker ending at `e` is that marker's
      spelling followed by the rest. */
  lemma {:induction false} MarkerSplit(t: string, e: nat)
    requires MarkerAt(t) == Some(e)
    ensures t == Spelling(Marker(t[5..e])) + t[e + 1..]
  {
    assert t == t[..5] + t[5..e] + [t[e]] + t[e + 1..];
  }

  /** Scanning a text that starts with a marker with a valid name. */
  lemma {:induction false} ScanMarker(name: string, rest: string)
    requires ValidName(name)
    ensures Scan(Open + name + "]" + rest) == [Marker(name)] + Scan(rest)
  {
    var t := Open + name + "]" + rest;
    MarkerMatches(name, rest);
    assert t[5..5 + |name|] == name;
    assert t[5 + |name| + 1..] == rest;
  }

  /** Scanning a text at whose first character no match starts. */
  lemma {:induction false} ScanChar(c: char, rest: string)
    requires MarkerAt([c] + rest).None?
    ensures Scan([c] + rest) == [Char(c)] + Scan(rest)
  {
    assert ([c] + rest)[1..] == rest;
  }

  /** Scanning loses nothing: the pieces spell the text back. */
  lemma {:induction false} ScanSpells(t: string)
    decreases |t|
    ensures Spell(Scan(t)) == t
  {
    if t != [] {
      match MarkerAt(t)
      case Some(e) =>
        ScanSpells(t[e + 1..]);
        MarkerSplit(t, e);
        SpellCons(Marker(t[5..e]), Scan(t[e + 1..]));
      case None =>
        ScanSpells(t[1..]);
        SpellCons(Char(t[0]), Scan(t[1..]));
        assert t == [t[0]] + t[1..];
    }
  }

  /** A leftmost split with one more leftmost piece in front. */
  lemma {:induction false} LeftmostCons(p: Piece, ps: seq<Piece>)
    requires Leftmost(ps)
    requires p.Marker? ==> ValidName(p.name)
    requires p.Char? ==> MarkerAt(Spell([p] + ps)).None?
    ensures Leftmost([p] + ps)
  {
    var qs := [p] + ps;
    assert qs[0..] == qs;
    forall i | 1 <= i < |qs| ensures qs[i] == ps[i - 1] && qs[i..] == ps[i - 1..] {
    }
  }

  lemma {:induction false} LeftmostTail(ps: seq<Piece>)
    requires Leftmost(ps) && ps != []
    ensures Leftmost(ps[1..])
  {
    forall i | 0 <= i < |ps| - 1 ensures ps[1..][i] == ps[i + 1] && ps[1..][i..] == ps[i + 1..] {
    }
  }

  /** The scan finds exactly the leftmost matches. */
  lemma {:induction false} ScanIsLeftmost(t: string)
    decreases |t|
    ensures Leftmost(Scan(t))
  {
    if t != [] {
      match MarkerAt(t)
      case Some(e) =>
        ScanIsLeftmost(t[e + 1..]);
        LeftmostCons(Marker(t[5..e]), Scan(t[e + 1..]));
      case None =>
        ScanIsLeftmost(t[1..]);
        ScanSpells(t);
        LeftmostCons(Char(t[0]), Scan(t[1..]));
    }
  }

  /** The leftmost split is unique: any split into leftmost pieces is the scan. */
  lemma {:induction false} LeftmostIsScan(ps: seq<Piece>)
    requires Leftmost(ps)
    ensures Scan(Spell(ps)) == ps
  {
    if ps != [] {
      LeftmostTail(ps);
      LeftmostIsScan(ps[1..]);
      assert ps == [ps[0]] + ps[1..];
      SpellCons(ps[0], ps[1..]);
      match ps[0]
      case Marker(n) =>
        ScanMarker(n, Spell(ps[1..]));
      case Char(c) =>
        assert ps[0..] == ps;
        ScanChar(c, Spell(ps[1..]));
    }
  }

  // ---------------------------------------------------------------- rewriting

  /** What a marker with captured `name` becomes, given the article name-to-id map. */
  function Replacement(name: string, ids: map<string, nat>): string {
    var key := Strip(name);
    if key in ids then Open + Decimal(ids[key]) + "]" else "[ref=]"
  }

  /** The replacement is itself exactly one marker, whose name is the article's
      id in decimal when the stripped name is a known article and empty
      otherwise. */
  lemma {:induction false} ReplacementIsMarker(name: string, ids: map<string, nat>)
    ensures var r := Replacement(name, ids);
            |Scan(r)| == 1 && Scan(r)[0].Marker?
    ensures var n := Scan(Replacement(name, ids))[0].name;
            && (forall k :: 0 <= k < |n| ==> IsDigit(n[k]))
            && (n == [] <==> Strip(name) !in ids)
            && (Strip(name) in ids ==> DigitsValue(n) == ids[Strip(name)])
  {
    var key := Strip(name);
    var digits := if key in ids then Decimal(ids[key]) else "";
    ScanMarker(digits, "");
    assert Open + digits + "]" + "" == Replacement(name, ids);
  }

  /** Stripping twice is stripping once. */
  lemma {:induction false} StripIdempotent(s: string)
    ensures Strip(Strip(s)) == Strip(s)
  {
    StripTrimmed(s);
    StripUnpadded(Strip(s));
  }

  /** White space around a marker's name does not change its replacement. */
  lemma {:induction false} ReplacementIgnoresPadding(name: string, ids: map<string, nat>)
    ensures Replacement(Strip(name), ids) == Replacement(name, ids)
  {
    StripIdempotent(name);
  }

  /** What a piece becomes: a kept character, or a marker's replacement. */
  function Rewrite(p: Piece, ids: map<string, nat>): string {
    match p
    case Char(c) => [c]
    case Marker(n) => Replacement(n, ids)
  }

  function Substitute(ps: seq<Piece>, ids: map<string, nat>): string {
    if ps == [] then [] else Rewrite(ps[0], ids) + Substitute(ps[1..], ids)
  }

  /** `_update_text_refs(text, articles_dicts)`. */
  function UpdateTextRefs(text: string, ids: map<string, nat>): string {
    Substitute(Scan(text), ids)
  }

  lemma {:induction false} SubstituteCons(p: Piece, ps: seq<Piece>, ids: map<string, nat>)
    ensures Substitute([p] + ps, ids) == Rewrite(p, ids) + Substitute(ps, ids)
  {
    assert ([p] + ps)[1..] == ps;
  }

  /** A marker at the front is replaced and the scan goes on after its ']'. */
  lemma {:induction false} RewritesMarker(name: string, rest: string, ids: map<string, nat>)
    requires ValidName(name)
    ensures UpdateTextRefs(Open + name + "]" + rest, ids) == Replacement(name, ids) + UpdateTextRefs(rest, ids)
  {
    ScanMarker(name, rest);
    SubstituteCons(Marker(name), Scan(rest), ids);
  }

  /** A character where no match starts is kept as it is. */
  lemma {:induction false} KeepsCharacter(c: char, rest: string, ids: map<string, nat>)
    requires MarkerAt([c] + rest).None?
    ensures UpdateTextRefs([c] + rest, ids) == [c] + UpdateTextRefs(rest, ids)
  {
    ScanChar(c, rest);
    SubstituteCons(Char(c), Scan(rest), ids);
  }

  /** No match starts at a character other than '['. */
  lemma {:induction false} NoMarkerAt(c: char, rest: string)
    requires c != '['
    ensures MarkerAt([c] + rest).None?
  {
    if |[c] + rest| >= 5 {
      assert ([c] + rest)[..5][0] != Open[0];
    }
  }

  /** "[ref=" occurs in `t` at index `i`. */
  predicate OpensAt(t: string, i: nat) {
    i + 5 <= |t| && t[i..i + 5] == Open
  }

  /** A text in which "[ref=" never occurs is left unchanged. */
  lemma {:induction false} NoMarkerUnchanged(t: string, ids: map<string, nat>)
    requires forall i :: 0 <= i < |t| ==> !OpensAt(t, i)
    decreases |t|
    ensures UpdateTextRefs(t, ids) == t
  {
    if t != [] {
      assert MarkerAt(t).None? by {
        assert !OpensAt(t, 0);
        if |t| >= 5 { assert t[0..5] == t[..5]; }
      }
      forall i | 0 <= i < |t[1..]| ensures !OpensAt(t[1..], i) {
        assert !OpensAt(t, i + 1);
        if i + 5 <= |t[1..]| { assert t[1..][i..i + 5] == t[i + 1..i + 6]; }
      }
      NoMarkerUnchanged(t[1..], ids);
      assert [t[0]] + t[1..] == t;
      KeepsCharacter(t[0], t[1..], ids);
    }
  }

  /** A `[/ref]` closer is not a marker and passes through. */
  lemma {:induction false} CloserUnchanged(rest: string, ids: map<string, nat>)
    ensures UpdateTextRefs("[/ref]" + rest, ids) == "[/ref]" + UpdateTextRefs(rest, ids)
  {
    var closer := "/ref]";
    CloserSplit(rest);
    CloserNotMarker(rest);
    KeepsCharacter('[', closer + rest, ids);
    CloserNoOpen();
    StepChars(closer, rest, ids);
    CloserSplit(UpdateTextRefs(rest, ids));
  }

  lemma {:induction false} CloserSplit(s: string)
    ensures "[/ref]" + s == ['['] + ("/ref]" + s)
  {
    assert ['['] + "/ref]" == "[/ref]";
  }

  lemma {:induction false} CloserNotMarker(rest: string)
    ensures MarkerAt(['['] + ("/ref]" + rest)).None?
  {
    var t := ['['] + ("/ref]" + rest);
    assert t[..5][1] == '/' != Open[1];
  }

  lemma {:induction false} CloserNoOpen()
    ensures forall k :: 0 <= k < |"/ref]"| ==> "/ref]"[k] != '['
  {
  }

  /** Characters other than '[' can never start a marker and are kept. */
  lemma {:induction false} StepChars(cs: string, rest: string, ids: map<string, nat>)
    requires forall k :: 0 <= k < |cs| ==> cs[k] != '['
    ensures UpdateTextRefs(cs + rest, ids) == cs + UpdateTextRefs(rest, ids)
  {
    if cs == [] {
      assert cs + rest == rest;
    } else {
      var tail := cs[1..] + rest;
      assert cs + rest == [cs[0]] + tail;
      NoMarkerAt(cs[0], tail);
      KeepsCharacter(cs[0], tail, ids);
      StepChars(cs[1..], rest, ids);
      var u := UpdateTextRefs(rest, ids);
      assert UpdateTextRefs(cs + rest, ids) == [cs[0]] + (cs[1..] + u);
      assert [cs[0]] + (cs[1..] + u) == cs + u;
    }
  }
}
