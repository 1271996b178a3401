/**
 * The texts `normalize_media` accepts, as a grammar.
 *
 * - every way to write a media type: spaces, tokens, quotes and backslashes
 * - what a written media type says
 * - a text is accepted exactly when it is one of these ways
 * - how a canonical media type is written
 */
module MediaGrammar {
  import opened Prelude
  import opened Media

  // ---- Written media types ----

  datatype Char = Char(c: char, escaped: bool)

  datatype Written = Plain(text: string) | InQuotes(chars: seq<Char>)

  /** A parameter with the spaces before and after its semicolon. */
  datatype Part = Part(before: nat, after: nat, name: string, value: Written)

  datatype Writing = Writing(lead: nat, kind: string, subtype: string, parts: seq<Part>, trail: nat)

  function Spaces(n: nat): string {
    seq(n, _ => ' ')
  }

  function CharsText(cs: seq<Char>): string {
    if cs == [] then "" else (if cs[0].escaped then ['\\', cs[0].c] else [cs[0].c]) + CharsText(cs[1..])
  }

  function Bare(cs: seq<Char>): string {
    seq(|cs|, i requires 0 <= i < |cs| => cs[i].c)
  }

  function ValueText(v: Written): string {
    match v
    case Plain(text) => text
    case InQuotes(chars) => "\"" + CharsText(chars) + "\""
  }

  function ValueOf(v: Written): string {
    match v
    case Plain(text) => text
    case InQuotes(chars) => Bare(chars)
  }

  function PartText(p: Part): string {
    Spaces(p.before) + ";" + Spaces(p.after) + p.name + "=" + ValueText(p.value)
  }

  function PartsText(ps: seq<Part>): string {
    if ps == [] then "" else PartText(ps[0]) + PartsText(ps[1..])
  }

  function Body(w: Writing): string {
    w.kind + "/" + w.subtype + PartsText(w.parts)
  }

  function WritingText(w: Writing): string {
    Spaces(w.lead) + Body(w) + Spaces(w.trail)
  }

  // ---- What is admitted, and what it says ----

  /** A quote or a backslash stands in quotes only after a backslash. */
  predicate CharsOk(cs: seq<Char>) {
    forall i | 0 <= i < |cs| :: cs[i].escaped || (cs[i].c != '"' && cs[i].c != '\\')
  }

  predicate ValueOk(v: Written) {
    match v
    case Plain(text) => Token(text)
    case InQuotes(chars) => CharsOk(chars)
  }

  predicate PartOk(p: Part) { Token(p.name) && ValueOk(p.value) }

  /** Names are compared without regard to case, and the value of `charset` is too. */
  function Says(p: Part): Parameter {
    var name := Lower(p.name);
    Parameter(name, if name == "charset" then Lower(ValueOf(p.value)) else ValueOf(p.value))
  }

  function AllSay(ps: seq<Part>): seq<Parameter> {
    seq(|ps|, i requires 0 <= i < |ps| => Says(ps[i]))
  }

  predicate DistinctNames(ps: seq<Parameter>) {
    forall i, j | 0 <= i < j < |ps| :: ps[i].name != ps[j].name
  }

  predicate WritingOk(w: Writing) {
    && Token(w.kind) && w.kind != "*" && Token(w.subtype) && w.subtype != "*"
    && |w.parts| <= 32 && (forall i | 0 <= i < |w.parts| :: PartOk(w.parts[i]))
    && DistinctNames(AllSay(w.parts))
  }

  function WritingSays(w: Writing): Media {
    Media(Alias(Lower(w.kind + "/" + w.subtype)), AllSay(w.parts))
  }

  ghost predicate Writes(w: Writing, value: string, m: Media) {
    WritingOk(w) && WritingText(w) == value && WritingSays(w) == m
  }

  // ---- Spaces ----

  lemma SpacesStep(n: nat)
    requires n > 0
    ensures Spaces(n) == " " + Spaces(n - 1) == Spaces(n - 1) + " "
  {
  }

  lemma {:induction false} LeadingSpaces(s: string) returns (n: nat)
    ensures s == Spaces(n) + DropSpaces(s)
  {
    if s != "" && s[0] == ' ' {
      n := LeadingSpaces(s[1..]);
      n := n + 1;
      SpacesStep(n);
      assert s == " " + s[1..];
    } else {
      n := 0;
    }
  }

  lemma {:induction false} TrailingSpaces(s: string) returns (n: nat)
    ensures s == DropTrailing(s) + Spaces(n)
  {
    if s != "" && s[|s| - 1] == ' ' {
      n := TrailingSpaces(s[..|s| - 1]);
      n := n + 1;
      SpacesStep(n);
      assert s == s[..|s| - 1] + " ";
      assert DropTrailing(s) + (Spaces(n - 1) + " ") == DropTrailing(s) + Spaces(n - 1) + " ";
    } else {
      n := 0;
    }
  }

  lemma {:induction false} SpacesDropped(n: nat, s: string)
    requires s == "" || s[0] != ' '
    ensures DropSpaces(Spaces(n) + s) == s
  {
    if n > 0 {
      SpacesStep(n);
      SpacesDropped(n - 1, s);
      assert (Spaces(n) + s)[0] == ' ' && (Spaces(n) + s)[1..] == Spaces(n - 1) + s;
    } else {
      assert Spaces(0) + s == s;
    }
  }

  lemma {:induction false} SpacesTrimmed(s: string, n: nat)
    requires s == "" || s[|s| - 1] != ' '
    ensures DropTrailing(s + Spaces(n)) == s
  {
    if n > 0 {
      var t := s + Spaces(n);
      SpacesStep(n);
      SpacesTrimmed(s, n - 1);
      assert t[|t| - 1] == ' ' && t[..|t| - 1] == s + Spaces(n - 1);
    } else {
      assert s + Spaces(0) == s;
    }
  }

  // ---- What is read was written ----

  lemma {:induction false} QuotedRead(s: string) returns (cs: seq<Char>)
    requires ReadQuoted(s).Ok?
    ensures CharsOk(cs) && Bare(cs) == ReadQuoted(s).value.0
    ensures s == CharsText(cs) + "\"" + ReadQuoted(s).value.1
    decreases |s|
  {
    if s[0] == '"' {
      cs := [];
      assert s == "\"" + s[1..];
    } else {
      var skip := if s[0] == '\\' then 2 else 1;
      var rest := QuotedRead(s[skip..]);
      cs := [Char(s[skip - 1], skip == 2)] + rest;
      hide CharsText, CharsOk, Bare;
      CharsJoin(cs, rest);
      assert s == s[..skip] + s[skip..];
    }
  }

  lemma CharsJoin(cs: seq<Char>, rest: seq<Char>)
    requires cs != [] && rest == cs[1..] && CharsOk(rest) && (cs[0].escaped || (cs[0].c != '"' && cs[0].c != '\\'))
    ensures CharsOk(cs) && Bare(cs) == [cs[0].c] + Bare(rest)
    ensures CharsText(cs) == (if cs[0].escaped then ['\\', cs[0].c] else [cs[0].c]) + CharsText(rest)
  {
    assert forall i | 0 < i < |cs| :: cs[i] == rest[i - 1];
  }

  lemma ValueRead(s: string) returns (v: Written)
    requires ReadValue(s).Ok?
    ensures ValueOk(v) && ValueOf(v) == ReadValue(s).value.0 && s == ValueText(v) + ReadValue(s).value.1
  {
    hide ReadQuoted, TokenChar, Token, TokenLength, CharsText, CharsOk;
    if s != "" && s[0] == '"' {
      var cs := QuotedRead(s[1..]);
      v := InQuotes(cs);
      assert s == "\"" + s[1..];
    } else {
      v := Plain(s[..TokenLength(s)]);
    }
  }

  lemma PartRead(s: string) returns (p: Part)
    requires ReadParameter(s).Ok?
    ensures PartOk(p) && p.before == 0 && Says(p) == ReadParameter(s).value.0
    ensures ";" + s == PartText(p) + ReadParameter(s).value.1
  {
    hide ReadValue, TokenChar, Token, TokenLength, Lower, DropSpaces, ValueText, ValueOf, ValueOk;
    var after := LeadingSpaces(s);
    var t := DropSpaces(s);
    var n := TokenLength(t);
    var v := ValueRead(t[n + 1..]);
    p := Part(0, after, t[..n], v);
    assert t == t[..n] + "=" + t[n + 1..];
    PartSplit(p, s, t, ReadParameter(s).value.1);
  }

  lemma PartSplit(p: Part, s: string, t: string, rest: string)
    requires p.before == 0 && s == Spaces(p.after) + t && t == p.name + "=" + (ValueText(p.value) + rest)
    ensures ";" + s == PartText(p) + rest
  {
    hide ValueText;
  }

  lemma {:induction false} PartsRead(s: string, found: seq<Parameter>) returns (ps: seq<Part>, trail: nat)
    requires ReadParameters(s, found).Ok? && DistinctNames(found) && |found| <= 32
    ensures s == PartsText(ps) + Spaces(trail) && forall i | 0 <= i < |ps| :: PartOk(ps[i])
    ensures ReadParameters(s, found) == Ok(found + AllSay(ps))
    ensures DistinctNames(found + AllSay(ps)) && |found| + |ps| <= 32
    decreases |s|
  {
    hide ReadParameter, PartOk, Says, PartText, DropSpaces;
    var lead := LeadingSpaces(s);
    var t := DropSpaces(s);
    if t == "" {
      ps, trail := [], lead;
      assert found + AllSay([]) == found;
    } else {
      var p := PartRead(t[1..]);
      var (said, rest) := ReadParameter(t[1..]).value;
      var more;
      more, trail := PartsRead(rest, found + [said]);
      ps := [p.(before := lead)] + more;
      assert found + [said] + AllSay(more) == found + AllSay(ps) by { SayFirst(ps, p, said); }
      assert t == ";" + t[1..];
      LeadMoves(p, lead, rest);
      assert ps[1..] == more;
    }
  }

  lemma SayFirst(ps: seq<Part>, p: Part, said: Parameter)
    requires ps != [] && ps[0] == p.(before := ps[0].before) && Says(p) == said
    ensures AllSay(ps) == [said] + AllSay(ps[1..])
  {
    hide Lower, ValueOf;
  }

  lemma LeadMoves(p: Part, lead: nat, rest: string)
    requires p.before == 0
    ensures Spaces(lead) + (PartText(p) + rest) == PartText(p.(before := lead)) + rest
    ensures PartOk(p.(before := lead)) == PartOk(p)
  {
    hide ValueText, Token, ValueOk;
  }

  /** Accepted text was written as the grammar says. */
  lemma ContentRead(value: string) returns (w: Writing)
    requires Content(value).Ok?
    ensures Writes(w, value, Content(value).value)
  {
    hide ReadEssence, ReadParameters, Alias, PartsText, PartOk, AllSay, DropSpaces, DropTrailing, Printable, Token;
    hide DistinctNames, Lower, Spaces;
    var lead := LeadingSpaces(value);
    var end := TrailingSpaces(DropSpaces(value));
    var text := Strip(value);
    var (essence, rest) := ReadEssence(text).value;
    NoParts();
    var ps, trail := PartsRead(rest, []);
    var kind, subtype := EssenceRead(text);
    w := Writing(lead, kind, subtype, ps, trail + end);
    assert [] + AllSay(ps) == AllSay(ps);
    Rejoined(w, value, text, rest, trail, end);
  }

  lemma EssenceRead(s: string) returns (kind: string, subtype: string)
    requires ReadEssence(s).Ok?
    ensures Token(kind) && kind != "*" && Token(subtype) && subtype != "*"
    ensures ReadEssence(s).value.0 == Lower(kind + "/" + subtype)
    ensures s == kind + "/" + subtype + ReadEssence(s).value.1
  {
    hide TokenLength, Token, Lower;
    var n := TokenLength(s);
    var t := s[n + 1..];
    kind, subtype := s[..n], t[..TokenLength(t)];
    assert s == s[..n] + "/" + t;
  }

  lemma Rejoined(w: Writing, value: string, text: string, rest: string, trail: nat, end: nat)
    requires value == Spaces(w.lead) + (text + Spaces(end))
    requires text == w.kind + "/" + w.subtype + rest && rest == PartsText(w.parts) + Spaces(trail)
    requires w.trail == trail + end
    ensures WritingText(w) == value
  {
    hide PartsText;
    assert Spaces(w.trail) == Spaces(trail) + Spaces(end);
  }

  // ---- What is written is read ----

  lemma {:induction false} QuotedWritten(cs: seq<Char>, rest: string)
    requires CharsOk(cs)
    ensures ReadQuoted(CharsText(cs) + "\"" + rest) == Ok((Bare(cs), rest))
  {
    hide ReadQuoted;
    if cs == [] {
      ReadClosing(rest);
      assert CharsText(cs) + "\"" + rest == "\"" + rest && Bare(cs) == "";
    } else {
      var tail := CharsText(cs[1..]) + "\"" + rest;
      assert CharsOk(cs[1..]);
      QuotedWritten(cs[1..], rest);
      CharsJoin(cs, cs[1..]);
      if cs[0].escaped {
        ReadEscapedChar(cs[0].c, tail);
        assert CharsText(cs) + "\"" + rest == ['\\', cs[0].c] + tail;
      } else {
        ReadPlainChar(cs[0].c, tail);
        assert CharsText(cs) + "\"" + rest == [cs[0].c] + tail;
      }
    }
  }

  /** What may follow a value: a space, a semicolon, or nothing. */
  predicate Follows(rest: string) { rest == "" || rest[0] == ' ' || rest[0] == ';' }

  lemma ValueWritten(v: Written, rest: string)
    requires ValueOk(v) && Follows(rest)
    ensures ReadValue(ValueText(v) + rest) == Ok((ValueOf(v), rest))
  {
    Separators();
    hide TokenChar, Token, ReadQuoted, CharsText, CharsOk, TokenLength;
    match v {
      case Plain(text) =>
        TokenStops(text, rest);
        TokenNonempty(text);
        NoQuote(text);
        assert (text + rest)[0] == text[0];
        TextSplits(text, rest);
      case InQuotes(chars) =>
        QuotedWritten(chars, rest);
        assert (ValueText(v) + rest)[1..] == CharsText(chars) + "\"" + rest;
    }
  }

  lemma NoQuote(s: string)
    requires Token(s)
    ensures s != "" && s[0] != '"' && s[0] != ';' && s[|s| - 1] != ' '
  {
    Separators();
    assert TokenChar(s[0]) && TokenChar(s[|s| - 1]);
    hide TokenChar;
  }

  lemma PartWritten(p: Part, rest: string)
    requires PartOk(p) && Follows(rest)
    ensures ReadParameter(Spaces(p.after) + p.name + "=" + ValueText(p.value) + rest) == Ok((Says(p), rest))
  {
    Separators();
    hide TokenChar, Token, ReadValue, ValueText, ValueOf, Lower, TokenLength, DropSpaces, ValueOk;
    TokenNonempty(p.name);
    var after := "=" + (ValueText(p.value) + rest);
    var s := p.name + after;
    assert Spaces(p.after) + p.name + "=" + ValueText(p.value) + rest == Spaces(p.after) + s;
    assert s[0] == p.name[0];
    SpacesDropped(p.after, s);
    TokenStops(p.name, after);
    var n := |p.name|;
    assert s[..n] == p.name && s[n] == '=' && s[n + 1..] == ValueText(p.value) + rest;
    ValueWritten(p.value, rest);
  }

  lemma PartsFollow(ps: seq<Part>, trail: nat)
    ensures Follows(PartsText(ps) + Spaces(trail))
  {
    if ps != [] {
      assert PartText(ps[0])[0] == if ps[0].before > 0 then ' ' else ';';
    }
  }

  lemma {:induction false} PartsWritten(ps: seq<Part>, trail: nat, found: seq<Parameter>)
    requires forall i | 0 <= i < |ps| :: PartOk(ps[i])
    requires DistinctNames(found + AllSay(ps)) && |found| + |ps| <= 32
    ensures ReadParameters(PartsText(ps) + Spaces(trail), found) == Ok(found + AllSay(ps))
    decreases |ps|
  {
    hide PartOk, ReadParameter, PartText, Says, DropSpaces;
    var s := PartsText(ps) + Spaces(trail);
    if ps == [] {
      assert found + AllSay(ps) == found && s == Spaces(trail) + "";
      SpacesDropped(trail, "");
    } else {
      var p, rest := ps[0], PartsText(ps[1..]) + Spaces(trail);
      var text := Spaces(p.after) + p.name + "=" + ValueText(p.value) + rest;
      PartsFollow(ps[1..], trail);
      PartWritten(p, rest);
      FirstPart(ps, trail);
      SpacesDropped(p.before, ";" + text);
      assert (";" + text)[1..] == text;
      SayFirst(ps, p, Says(p));
      assert found + AllSay(ps) == found + [Says(p)] + AllSay(ps[1..]);
      NewName(found, Says(p), AllSay(ps[1..]));
      assert forall i | 0 <= i < |ps[1..]| :: ps[1..][i] == ps[i + 1];
      PartsWritten(ps[1..], trail, found + [Says(p)]);
    }
  }

  lemma FirstPart(ps: seq<Part>, trail: nat)
    requires ps != []
    ensures var rest := PartsText(ps[1..]) + Spaces(trail);
      PartsText(ps) + Spaces(trail)
        == Spaces(ps[0].before) + (";" + (Spaces(ps[0].after) + ps[0].name + "=" + ValueText(ps[0].value) + rest))
  {
    hide ValueText;
  }

  lemma NewName(found: seq<Parameter>, p: Parameter, more: seq<Parameter>)
    requires DistinctNames(found + [p] + more)
    ensures !Named(found, p.name)
  {
    var all := found + [p] + more;
    forall i | 0 <= i < |found| ensures found[i].name != p.name {
      assert all[i].name != all[|found|].name;
    }
  }

  predicate EndsSolid(s: string) { s != "" && s[|s| - 1] != ' ' }

  lemma SolidJoin(a: string, b: string)
    requires EndsSolid(b) || (b == "" && EndsSolid(a))
    ensures EndsSolid(a + b)
  {
  }

  lemma PartEnds(p: Part)
    requires PartOk(p)
    ensures EndsSolid(PartText(p))
  {
    assert EndsSolid(ValueText(p.value)) by {
      if p.value.Plain? { NoQuote(p.value.text); }
    }
    hide ValueText, EndsSolid;
    SolidJoin(Spaces(p.before) + ";" + Spaces(p.after) + p.name + "=", ValueText(p.value));
  }

  lemma {:induction false} PartsEnd(ps: seq<Part>)
    requires forall i | 0 <= i < |ps| :: PartOk(ps[i])
    ensures ps != [] ==> EndsSolid(PartsText(ps))
  {
    hide PartOk, PartText, EndsSolid;
    if ps != [] {
      PartsEnd(ps[1..]);
      PartEnds(ps[0]);
      SolidJoin(PartText(ps[0]), PartsText(ps[1..]));
    }
  }

  lemma BodyEnds(w: Writing)
    requires WritingOk(w)
    ensures var s := Body(w); s != "" && s[0] != ' ' && s[|s| - 1] != ' '
  {
    hide PartsText, PartOk, Token, AllSay;
    NoQuote(w.subtype);
    TokenNonempty(w.kind);
    PartsEnd(w.parts);
    SolidJoin(w.kind + "/", w.subtype);
    assert w.parts == [] ==> PartsText(w.parts) == "" by { NoParts(); }
    SolidJoin(w.kind + "/" + w.subtype, PartsText(w.parts));
    assert Body(w)[0] == w.kind[0];
  }

  lemma NoParts()
    ensures PartsText([]) == "" && AllSay([]) == [] && DistinctNames([])
  {
  }

  lemma StripWritten(w: Writing)
    requires WritingOk(w)
    ensures Strip(WritingText(w)) == Body(w)
  {
    hide WritingOk, Body, DropSpaces, DropTrailing;
    BodyEnds(w);
    var s := Body(w) + Spaces(w.trail);
    assert WritingText(w) == Spaces(w.lead) + s && s[0] == Body(w)[0];
    SpacesDropped(w.lead, s);
    SpacesTrimmed(Body(w), w.trail);
  }

  lemma EssenceWritten(w: Writing)
    requires WritingOk(w)
    ensures ReadEssence(Body(w)) == Ok((Lower(w.kind + "/" + w.subtype), PartsText(w.parts)))
  {
    Separators();
    hide TokenChar, Lower, TokenLength, Token, ReadEssence, PartsText, AllSay, PartOk;
    var rest := PartsText(w.parts);
    PartsFollow(w.parts, 0);
    assert rest + Spaces(0) == rest;
    var after := "/" + (w.subtype + rest);
    assert Body(w) == w.kind + after;
    TokenNonempty(w.kind);
    TokenNonempty(w.subtype);
    TokenStops(w.kind, after);
    TokenStops(w.subtype, rest);
    TextSplits(w.kind, after);
    TextSplits(w.subtype, rest);
    assert Body(w)[|w.kind| + 1..] == w.subtype + rest;
    EssenceParts(Body(w), w.kind, w.subtype, rest);
  }

  /** A text says a media type exactly when it is a way to write it, within the limits. */
  lemma ContentExact(value: string, m: Media)
    ensures Content(value) == Ok(m) <==>
      |value| <= 1024 && Printable(value) && exists w :: Writes(w, value, m)
  {
    hide Strip, ReadEssence, ReadParameters, Alias, Printable, WritingText, AllSay;
    if Content(value) == Ok(m) { var w := ContentRead(value); }
    if |value| <= 1024 && Printable(value) {
      if w :| Writes(w, value, m) {
        StripWritten(w);
        EssenceWritten(w);
        assert [] + AllSay(w.parts) == AllSay(w.parts);
        PartsWritten(w.parts, 0, []);
        assert PartsText(w.parts) + Spaces(0) == PartsText(w.parts);
      }
    }
  }

  // ---- How a canonical media type is written ----

  /** A proper prefix, or smaller at the first character that differs. */
  ghost predicate TextBefore(s: string, t: string) {
    (|s| < |t| && s == t[..|s|])
    || exists i | 0 <= i < |s| && i < |t| :: s[..i] == t[..i] && s[i] < t[i]
  }

  lemma {:induction false} TextExact(s: string, t: string)
    ensures TextLess(s, t) <==> TextBefore(s, t)
    decreases |s|
  {
    if |s| > 0 && |t| > 0 {
      TextExact(s[1..], t[1..]);
      assert s == [s[0]] + s[1..] && t == [t[0]] + t[1..];
      if s[0] == t[0] {
        if TextBefore(s[1..], t[1..]) { TextBeforeCons(s, t); }
        if TextBefore(s, t) { TextBeforeTail(s, t); }
      } else if s[0] < t[0] {
        assert s[..0] == t[..0];
      }
    }
  }

  lemma TextBeforeCons(s: string, t: string)
    requires |s| > 0 && |t| > 0 && s[0] == t[0] && TextBefore(s[1..], t[1..])
    ensures TextBefore(s, t)
  {
    var p, q := s[1..], t[1..];
    if i :| 0 <= i < |p| && i < |q| && p[..i] == q[..i] && p[i] < q[i] {
      assert s[..i + 1] == [s[0]] + p[..i] && t[..i + 1] == [t[0]] + q[..i];
    } else {
      assert s == [s[0]] + p && t[..|s|] == [t[0]] + q[..|p|];
    }
  }

  lemma TextBeforeTail(s: string, t: string)
    requires |s| > 0 && |t| > 0 && s[0] == t[0] && TextBefore(s, t)
    ensures TextBefore(s[1..], t[1..])
  {
    var p, q := s[1..], t[1..];
    if i :| 0 <= i < |s| && i < |t| && s[..i] == t[..i] && s[i] < t[i] {
      assert p[..i - 1] == s[..i][1..] && q[..i - 1] == t[..i][1..];
    } else {
      assert q[..|p|] == t[..|s|][1..];
    }
  }

  predicate Special(c: char) { c == '"' || c == '\\' }

  /** No spaces around it, quotes only where a token will not do, backslashes only where they must be. */
  predicate TightPart(p: Part) {
    && p.before == 0 && p.after == 0 && Lowered(p.name)
    && match p.value
       case Plain(_) => true
       case InQuotes(chars) =>
         !Token(Bare(chars)) && forall i | 0 <= i < |chars| :: chars[i].escaped <==> Special(chars[i].c)
  }

  ghost predicate Tight(w: Writing) {
    && w.lead == 0 && w.trail == 0 && Lowered(w.kind) && Lowered(w.subtype)
    && (forall i | 0 <= i < |w.parts| :: TightPart(w.parts[i]))
    && forall i, j | 0 <= i < j < |w.parts| :: TextBefore(w.parts[i].name, w.parts[j].name)
  }

  function Marked(v: string): seq<Char> {
    seq(|v|, i requires 0 <= i < |v| => Char(v[i], Special(v[i])))
  }

  function TightValue(v: string): Written {
    if Token(v) then Plain(v) else InQuotes(Marked(v))
  }

  function PartOf(p: Parameter): Part {
    Part(0, 0, p.name, TightValue(p.value))
  }

  function PartsOf(ps: seq<Parameter>): seq<Part> {
    seq(|ps|, i requires 0 <= i < |ps| => PartOf(ps[i]))
  }

  lemma {:induction false} MarkedText(v: string)
    ensures CharsText(Marked(v)) == Escape(v)
  {
    if v != "" {
      MarkedText(v[1..]);
      assert Marked(v)[1..] == Marked(v[1..]);
    }
  }

  lemma TightSays(p: Parameter)
    requires CanonicalParameter(p)
    ensures PartOk(PartOf(p)) && TightPart(PartOf(p)) && Says(PartOf(p)) == p
    ensures PartText(PartOf(p)) == RenderParameter(p)
  {
    hide TokenChar, CharsText, Escape, Token;
    MarkedText(p.value);
    assert Bare(Marked(p.value)) == p.value;
    LowerFixed(p.name);
    LowerFixed(p.value);
    hide Lower, Lowered, Marked;
    assert Spaces(0) == "";
    assert PartText(PartOf(p)) == RenderParameter(p);
  }

  lemma {:induction false} TightParts(ps: seq<Parameter>)
    requires forall i | 0 <= i < |ps| :: CanonicalParameter(ps[i])
    ensures PartsText(PartsOf(ps)) == RenderParameters(ps) && AllSay(PartsOf(ps)) == ps
    ensures forall i | 0 <= i < |ps| :: PartOk(PartsOf(ps)[i]) && TightPart(PartsOf(ps)[i])
  {
    hide CanonicalParameter, PartOk, TightPart, PartText, RenderParameter, PartOf, Says;
    forall i | 0 <= i < |ps|
      ensures PartOk(PartsOf(ps)[i]) && TightPart(PartsOf(ps)[i]) && Says(PartsOf(ps)[i]) == ps[i]
    {
      TightSays(ps[i]);
    }
    if ps != [] {
      TightParts(ps[1..]);
      TightSays(ps[0]);
      assert PartsOf(ps)[1..] == PartsOf(ps[1..]) && PartsOf(ps)[0] == PartOf(ps[0]);
    }
  }

  function TightWriting(m: Media, i: nat): Writing
    requires i < |m.essence|
  {
    Writing(0, m.essence[..i], m.essence[i + 1..], PartsOf(m.parameters), 0)
  }

  lemma TightText(m: Media, i: nat)
    requires EssenceAt(m.essence, i) && PartsText(PartsOf(m.parameters)) == RenderParameters(m.parameters)
    ensures WritingText(TightWriting(m, i)) == Render(m)
  {
    hide PartsText, PartsOf, RenderParameters, Token;
    var e := m.essence;
    assert Spaces(0) == "" && e[..i] + "/" + e[i + 1..] == e;
  }

  lemma TightTight(m: Media, i: nat)
    requires EssenceAt(m.essence, i) && Lowered(m.essence) && Ordered(m.parameters)
    requires forall k | 0 <= k < |m.parameters| :: TightPart(PartsOf(m.parameters)[k])
    ensures Tight(TightWriting(m, i))
  {
    hide EssenceAt, TextLess, TextBefore, Lowered, Token, PartsOf, Ordered, TightPart;
    EssenceWhole(m.essence, i);
    NamesAscend(m.parameters);
    PartNames(m.parameters);
  }

  lemma TightWrites(m: Media, i: nat)
    requires EssenceAt(m.essence, i) && Lowered(m.essence) && Alias(m.essence) == m.essence
    requires Ordered(m.parameters) && |m.parameters| <= 32 && AllSay(PartsOf(m.parameters)) == m.parameters
    requires forall k | 0 <= k < |m.parameters| :: PartOk(PartsOf(m.parameters)[k])
    ensures WritingOk(TightWriting(m, i)) && WritingSays(TightWriting(m, i)) == m
  {
    hide EssenceAt, Lowered, Token, PartsOf, Ordered, PartOk, AllSay, Alias, TextBefore, Lower;
    EssenceWhole(m.essence, i);
    NamesAscend(m.parameters);
    PartNames(m.parameters);
  }

  /** A canonical media type is written tightly, its parameters in ascending order of their names. */
  lemma RenderExact(m: Media) returns (w: Writing)
    requires Canonical(m)
    ensures Tight(w) && Writes(w, Render(m), m)
  {
    hide CanonicalParameter, EssenceAt, Lowered, RenderParameters, PartsText, PartsOf, Ordered, PartOk, TightPart;
    hide Alias, AllSay, WritingOk, WritingText, WritingSays, Tight, Render;
    var i: nat :| i < |m.essence| && EssenceAt(m.essence, i);
    w := TightWriting(m, i);
    PartNames(m.parameters);
    TightParts(m.parameters);
    TightText(m, i);
    TightTight(m, i);
    TightWrites(m, i);
  }

  lemma PartNames(ps: seq<Parameter>)
    ensures |PartsOf(ps)| == |ps| && forall i | 0 <= i < |ps| :: PartsOf(ps)[i].name == ps[i].name
  {
    hide TightValue;
  }

  lemma EssenceWhole(e: string, i: nat)
    requires EssenceAt(e, i) && Lowered(e)
    ensures i < |e| && e[..i] + "/" + e[i + 1..] == e && Lowered(e[..i]) && Lowered(e[i + 1..]) && Lower(e) == e
    ensures Token(e[..i]) && e[..i] != "*" && Token(e[i + 1..]) && e[i + 1..] != "*"
  {
    hide Token;
  }

  lemma NamesAscend(ps: seq<Parameter>)
    requires Ordered(ps)
    ensures DistinctNames(ps) && forall i, j | 0 <= i < j < |ps| :: TextBefore(ps[i].name, ps[j].name)
  {
    hide TextLess, TextBefore;
    forall i, j | 0 <= i < j < |ps| ensures ps[i].name != ps[j].name && TextBefore(ps[i].name, ps[j].name) {
      assert Before(ps[i], ps[j]);
      TextIrreflexive(ps[i].name);
      TextExact(ps[i].name, ps[j].name);
    }
  }
}
