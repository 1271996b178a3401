/**
 * Media-type normalisation and the annotations built on it.
 *
 * A media type is a type and a subtype, lower-cased and with registered aliases replaced, followed
 * by parameters in name order.  Tokens and quoted strings are those of sections 5.6.2 and 5.6.4 of
 * RFC 9110.  The laws come first: what is canonical reads back as itself, whatever is accepted is
 * canonical, so normalising is idempotent.
 */
module Media {
  import opened Prelude
  import opened Sorting

  const MEDIA_TYPE_LIMIT: nat := 1024
  const MEDIA_PARAMETER_LIMIT: nat := 32

  // ---- Characters and tokens ----

  predicate TokenChar(c: char) {
    c in "!#$%&'*+.^_`|~-" || '0' <= c <= '9' || 'A' <= c <= 'Z' || 'a' <= c <= 'z'
  }

  predicate Printable(s: string) {
    forall i | 0 <= i < |s| :: ' ' <= s[i] <= '~'
  }

  function LowerChar(c: char): char {
    if 'A' <= c <= 'Z' then c - 'A' + 'a' else c
  }

  function Lower(s: string): string {
    seq(|s|, i requires 0 <= i < |s| => LowerChar(s[i]))
  }

  predicate Lowered(s: string) {
    forall i | 0 <= i < |s| :: !('A' <= s[i] <= 'Z')
  }

  predicate Token(s: string) {
    s != "" && forall i | 0 <= i < |s| :: TokenChar(s[i])
  }

  /** How far a token runs. */
  function TokenLength(s: string): (n: nat)
    ensures n <= |s| && (n > 0 ==> Token(s[..n])) && (n < |s| ==> !TokenChar(s[n]))
  {
    if s == "" || !TokenChar(s[0]) then 0
    else
      var n := TokenLength(s[1..]);
      TokenExtends(s, n);
      1 + n
  }

  lemma TokenExtends(s: string, n: nat)
    requires s != "" && TokenChar(s[0]) && n < |s| && (n > 0 ==> Token(s[1..][..n]))
    ensures Token(s[..n + 1])
  {
    hide TokenChar;
    var t := s[..n + 1];
    forall i | 0 <= i < |t| ensures TokenChar(t[i]) {
      if i > 0 { assert t[i] == s[1..][..n][i - 1]; }
    }
  }

  function DropSpaces(s: string): (r: string)
    ensures |r| <= |s| && (r != "" ==> r[0] != ' ')
    ensures s == "" || s[0] != ' ' ==> r == s
  {
    if s != "" && s[0] == ' ' then DropSpaces(s[1..]) else s
  }

  function DropTrailing(s: string): (r: string)
    ensures |r| <= |s| && r <= s && (r != "" ==> r[|r| - 1] != ' ')
  {
    if s != "" && s[|s| - 1] == ' ' then DropTrailing(s[..|s| - 1]) else s
  }

  function Strip(s: string): string {
    DropTrailing(DropSpaces(s))
  }

  // ---- Quoted strings ----

  /** Text up to the closing quote, a backslash quoting the next character; and what follows. */
  function ReadQuoted(s: string): (r: Result<(string, string)>)
    ensures r.Ok? ==> |r.value.1| < |s|
  {
    if s == "" then Err
    else if s[0] == '"' then Ok(("", s[1..]))
    else if s[0] == '\\' then
      if |s| == 1 then Err else
      match ReadQuoted(s[2..])
      case Err => Err
      case Ok(p) => Ok(([s[1]] + p.0, p.1))
    else
      match ReadQuoted(s[1..])
      case Err => Err
      case Ok(p) => Ok(([s[0]] + p.0, p.1))
  }

  /** Backslashes and quotes escaped. */
  function Escape(v: string): string {
    if v == "" then ""
    else (if v[0] == '\\' || v[0] == '"' then ['\\', v[0]] else [v[0]]) + Escape(v[1..])
  }

  function Quoted(v: string): string {
    if Token(v) then v else "\"" + Escape(v) + "\""
  }

  // ---- Parameters ----

  datatype Parameter = Parameter(name: string, value: string)

  predicate Named(ps: seq<Parameter>, name: string) {
    exists i | 0 <= i < |ps| :: ps[i].name == name
  }

  function Fold(name: string, value: string): Parameter {
    Parameter(name, if name == "charset" then Lower(value) else value)
  }

  /** A value after the equals sign, and what follows it. */
  function ReadValue(s: string): (r: Result<(string, string)>)
    ensures r.Ok? ==> |r.value.1| < |s|
  {
    if s != "" && s[0] == '"' then ReadQuoted(s[1..])
    else if TokenLength(s) == 0 then Err
    else Ok((s[..TokenLength(s)], s[TokenLength(s)..]))
  }

  /** One parameter after its semicolon, and what follows it. */
  function ReadParameter(s: string): (r: Result<(Parameter, string)>)
    ensures r.Ok? ==> |r.value.1| < |s|
  {
    var t := DropSpaces(s);
    var n := TokenLength(t);
    if n == 0 || n == |t| || t[n] != '=' then Err else
    match ReadValue(t[n + 1..])
    case Err => Err
    case Ok(p) => Ok((Fold(Lower(t[..n]), p.0), p.1))
  }

  function ReadParameters(s: string, found: seq<Parameter>): Result<seq<Parameter>>
    decreases |s|
  {
    var t := DropSpaces(s);
    if t == "" then Ok(found)
    else if t[0] != ';' then Err
    else match ReadParameter(t[1..])
      case Err => Err
      case Ok(p) =>
        if Named(found, p.0.name) || |found| >= MEDIA_PARAMETER_LIMIT then Err
        else ReadParameters(p.1, found + [p.0])
  }

  // ---- The whole text ----

  /** Registered aliases; every other essence stands for itself. */
  function Alias(e: string): string {
    if e == "application/javascript" || e == "application/ecmascript" || e == "text/ecmascript" then "text/javascript"
    else if e == "audio/x-wav" || e == "audio/wave" then "audio/wav"
    else if e == "audio/x-flac" then "audio/flac"
    else e
  }

  /** Type and subtype, and what follows. */
  function ReadEssence(s: string): (r: Result<(string, string)>)
  {
    var n := TokenLength(s);
    if n == 0 || n == |s| || s[n] != '/' then Err else
    var t := s[n + 1..];
    var m := TokenLength(t);
    if m == 0 || s[..n] == "*" || t[..m] == "*" then Err
    else Ok((Lower(s[..n] + "/" + t[..m]), t[m..]))
  }

  datatype Media = Media(essence: string, parameters: seq<Parameter>)

  /** What a text says: its aliased essence and its parameters, in the order written. */
  function Content(value: string): Result<Media> {
    if |value| > MEDIA_TYPE_LIMIT || !Printable(value) then Err else
    match ReadEssence(Strip(value))
    case Err => Err
    case Ok(p) =>
      match ReadParameters(p.1, [])
      case Err => Err
      case Ok(ps) => Ok(Media(Alias(p.0), ps))
  }

  /** The same with the parameters in name order. */
  function Parse(value: string): Result<Media> {
    match Content(value)
    case Err => Err
    case Ok(m) => Ok(m.(parameters := SortBy(m.parameters, Before)))
  }

  /** Names compared by code point. */
  predicate TextLess(a: string, b: string) {
    if b == "" then false
    else if a == "" then true
    else a[0] < b[0] || (a[0] == b[0] && TextLess(a[1..], b[1..]))
  }

  predicate Before(p: Parameter, q: Parameter) {
    TextLess(p.name, q.name)
  }

  function RenderParameter(p: Parameter): string {
    ";" + p.name + "=" + Quoted(p.value)
  }

  function RenderParameters(ps: seq<Parameter>): string {
    if ps == [] then "" else RenderParameter(ps[0]) + RenderParameters(ps[1..])
  }

  function Render(m: Media): string {
    m.essence + RenderParameters(m.parameters)
  }

  function Normalise(value: string): Result<string> {
    match Parse(value)
    case Err => Err
    case Ok(m) => Ok(Render(m))
  }

  // ---- Canonical media types ----

  predicate EssenceAt(e: string, i: nat) {
    && i < |e| && e[i] == '/' && Token(e[..i]) && Token(e[i + 1..])
    && e[..i] != "*" && e[i + 1..] != "*"
  }

  predicate CanonicalEssence(e: string) {
    Lowered(e) && Alias(e) == e && exists i: nat | i < |e| :: EssenceAt(e, i)
  }

  predicate CanonicalParameter(p: Parameter) {
    Token(p.name) && Lowered(p.name) && Printable(p.value) && (p.name == "charset" ==> Lowered(p.value))
  }

  predicate Ordered(ps: seq<Parameter>) {
    forall i, j | 0 <= i < j < |ps| :: Before(ps[i], ps[j])
  }

  predicate Canonical(m: Media) {
    && CanonicalEssence(m.essence)
    && |m.parameters| <= MEDIA_PARAMETER_LIMIT
    && (forall i | 0 <= i < |m.parameters| :: CanonicalParameter(m.parameters[i]))
    && Ordered(m.parameters)
    && |Render(m)| <= MEDIA_TYPE_LIMIT
  }

  // ---- The laws ----

  ghost predicate CanonicalText(text: string) {
    exists m :: Canonical(m) && Render(m) == text
  }

  /** Every canonical media type is what its own text parses to. */
  lemma RenderParses(m: Media)
    requires Canonical(m)
    ensures Parse(Render(m)) == Ok(m)
  {
    hide EssenceAt, Lowered, CanonicalParameter, Strip, Alias, Printable, RenderParameters, Parse, TextLess, TokenChar;
    var i: nat :| i < |m.essence| && EssenceAt(m.essence, i);
    var rest := RenderParameters(m.parameters);
    assert [] + m.parameters == m.parameters;
    RenderAccepted(m, i);
    RenderStarts(m.parameters);
    EssenceReads(m.essence, i, rest);
    ReadRendered(m.parameters, []);
    OrderedStrictly(m.parameters);
    SortFixed(m.parameters, Before);
    ParsedAs(Render(m), m.essence, rest, m.parameters);
  }

  /** Whatever text is accepted, the media type it parses to is canonical. */
  lemma ParseCanonical(value: string)
    requires Parse(value).Ok?
    ensures Canonical(Parse(value).value)
  {
    hide CanonicalEssence, ReadEssence, ReadParameters, CanonicalParameter, SortBy;
    hide RenderParameters, Alias, Ordered, DropSpaces, DropTrailing;
    DropPrintable(value);
    TrailingPrintable(DropSpaces(value));
    var text := Strip(value);
    EssenceCanonical(text);
    var rest := ReadEssence(text).value.1;
    assert RenderParameters([]) == "" by { RenderStarts([]); }
    ParametersCanonical(rest, []);
    var ps := ReadParameters(rest, []).value;
    SortCanonical(ps);
    SortLength(ps);
  }

  /** Normalising twice is normalising once, within the same limits. */
  lemma Idempotent(value: string)
    requires Normalise(value).Ok?
    ensures Normalise(Normalise(value).value) == Normalise(value)
  {
    hide Parse, Canonical;
    ParseCanonical(value);
    RenderParses(Parse(value).value);
  }

  /** The texts left unchanged are exactly the renderings of canonical media types. */
  lemma FixedExactly(text: string)
    ensures Normalise(text) == Ok(text) <==> CanonicalText(text)
  {
    hide Parse, Canonical, Render;
    if Normalise(text) == Ok(text) {
      ParseCanonical(text);
    }
    if m :| Canonical(m) && Render(m) == text { RenderParses(m); }
  }

  /** Two texts normalise alike exactly when they say the same, the order of parameters aside. */
  lemma SameContent(a: string, b: string)
    requires Content(a).Ok? && Content(b).Ok?
    ensures Normalise(a).Ok? && Normalise(b).Ok?
    ensures Normalise(a) == Normalise(b) <==>
      Content(a).value.essence == Content(b).value.essence
      && multiset(Content(a).value.parameters) == multiset(Content(b).value.parameters)
  {
    hide Content, SortBy, Canonical, Before, Render;
    var x, y := Parse(a).value, Parse(b).value;
    SortByPermutes(Content(a).value.parameters, Before);
    SortByPermutes(Content(b).value.parameters, Before);
    ParseCanonical(a);
    ParseCanonical(b);
    RenderParses(x);
    RenderParses(y);
    if multiset(x.parameters) == multiset(y.parameters) {
      CanonicalOrdered(x);
      CanonicalOrdered(y);
      OrderedStrictly(x.parameters);
      OrderedStrictly(y.parameters);
      StrictUnique(x.parameters, y.parameters, Before);
    }
  }

  // ---- The annotation: a media type and an optional suffix hint ----

  const SUFFIX_LIMIT: nat := 32

  /** The preferred suffix of a registered essence and every suffix it admits. */
  function Registered(essence: string): Option<(string, set<string>)> {
    match essence
    case "application/gzip" => Some(("gz", {"gz", "tar.gz", "tgz"}))
    case "application/json" => Some(("json", {"json"}))
    case "application/octet-stream" => Some(("bin", {"bin"}))
    case "application/pdf" => Some(("pdf", {"pdf"}))
    case "application/wasm" => Some(("wasm", {"wasm"}))
    case "application/zip" => Some(("zip", {"zip"}))
    case "audio/flac" => Some(("flac", {"flac"}))
    case "audio/mp4" => Some(("m4a", {"m4a", "m4b", "mp4", "mpg4"}))
    case "audio/mpeg" => Some(("mp3", {"mp1", "mp2", "mp3"}))
    case "audio/ogg" => Some(("ogg", {"oga", "ogg", "opus"}))
    case "audio/wav" => Some(("wav", {"wav"}))
    case "image/gif" => Some(("gif", {"gif"}))
    case "image/jpeg" => Some(("jpg", {"jpe", "jpeg", "jpg"}))
    case "image/png" => Some(("png", {"png"}))
    case "image/svg+xml" => Some(("svg", {"svg"}))
    case "image/webp" => Some(("webp", {"webp"}))
    case "text/css" => Some(("css", {"css"}))
    case "text/javascript" => Some(("js", {"js", "mjs"}))
    case "text/plain" => Some(("txt", {"text", "txt"}))
    case "video/mp4" => Some(("mp4", {"m4v", "mp4"}))
    case "video/webm" => Some(("webm", {"webm"}))
    case _ => None
  }

  function Preferred(essence: string): string {
    if Registered(essence).Some? then Registered(essence).value.0 else "bin"
  }

  /** A registered essence admits its own suffixes only; plain bytes and unregistered ones admit any. */
  predicate Admits(essence: string, suffix: string) {
    Registered(essence).None? || essence == "application/octet-stream" || suffix in Registered(essence).value.1
  }

  predicate SuffixChar(c: char) {
    'a' <= c <= 'z' || '0' <= c <= '9' || c == '_' || c == '-'
  }

  /** Dot-separated non-empty runs of lower-case letters, digits, underscores and hyphens. */
  predicate SuffixForm(s: string) {
    && s != "" && s[0] != '.' && s[|s| - 1] != '.'
    && (forall i | 0 <= i < |s| :: SuffixChar(s[i]) || s[i] == '.')
    && (forall i | 0 <= i < |s| - 1 :: s[i] != '.' || s[i + 1] != '.')
  }

  /** Text before the first semicolon. */
  function Head(s: string): string {
    if s == "" || s[0] == ';' then "" else [s[0]] + Head(s[1..])
  }

  /** Case folding beyond ASCII is the library's; on ASCII text it lower-cases letters. */
  ghost predicate Folds(lower: string -> string) {
    forall s | SuffixForm(s) :: lower(s) == s
  }

  function Annotation(
      mediaType: string, suffix: Option<string>, lower: string -> string): Result<(string, Option<string>)>
  {
    match Normalise(mediaType)
    case Err => Err
    case Ok(text) =>
      if suffix.None? then Ok((text, None)) else
      var folded := lower(suffix.value);
      if |folded| > SUFFIX_LIMIT || !SuffixForm(folded) || !Admits(Head(text), folded) then Err
      else Ok((text, if folded == Preferred(Head(text)) then None else Some(folded)))
  }

  /** What a hint must be to stand as it is written beside a canonical media type. */
  ghost predicate CanonicalHint(text: string, hint: Option<string>) {
    hint.Some? ==>
      && |hint.value| <= SUFFIX_LIMIT && SuffixForm(hint.value)
      && Admits(Head(text), hint.value) && hint.value != Preferred(Head(text))
  }

  /**
   * The annotations that are their own canonical form, which are those a stored Blob may carry:
   * a canonical media type, and no hint or a well-formed, admitted one that is not the preferred.
   */
  lemma AnnotationExactly(text: string, hint: Option<string>, lower: string -> string)
    requires Folds(lower)
    ensures Annotation(text, hint, lower) == Ok((text, hint)) <==> CanonicalText(text) && CanonicalHint(text, hint)
  {
    hide Normalise, Registered, Admits, SuffixForm, Preferred, CanonicalText;
    FixedExactly(text);
  }

  /** A canonical annotation is its own canonical form. */
  lemma AnnotationFixpoint(mediaType: string, suffix: Option<string>, lower: string -> string)
    requires Folds(lower) && Annotation(mediaType, suffix, lower).Ok?
    ensures var (text, hint) := Annotation(mediaType, suffix, lower).value;
      Annotation(text, hint, lower) == Ok((text, hint))
  {
    hide Normalise, Registered, Admits, SuffixForm, Preferred;
    Idempotent(mediaType);
  }

  /** The registry is consulted with the essence of the media type. */
  lemma HeadIsEssence(m: Media)
    requires Canonical(m)
    ensures Head(Render(m)) == m.essence
  {
    hide EssenceAt, CanonicalParameter, Alias, Lowered, RenderParameters, TextLess;
    var i: nat :| i < |m.essence| && EssenceAt(m.essence, i);
    NoSemicolon(m.essence, i);
    RenderStarts(m.parameters);
    HeadStops(m.essence, RenderParameters(m.parameters));
  }

  // ---- The cursor over the text ----

  method TokenAt(text: string, position: nat) returns (end: nat)
    requires position <= |text|
    ensures end <= |text| && end == position + TokenLength(text[position..])
  {
    end := position;
    while end < |text| && TokenChar(text[end])
      invariant position <= end <= |text|
      invariant end + TokenLength(text[end..]) == position + TokenLength(text[position..])
    {
      assert text[end..][1..] == text[end + 1..];
      end := end + 1;
    }
  }

  method SkipSpaces(text: string, position: nat) returns (end: nat)
    requires position <= |text|
    ensures position <= end <= |text| && text[end..] == DropSpaces(text[position..])
  {
    end := position;
    while end < |text| && text[end] == ' '
      invariant position <= end <= |text|
      invariant DropSpaces(text[end..]) == DropSpaces(text[position..])
    {
      assert text[end..][1..] == text[end + 1..];
      end := end + 1;
    }
  }

  /** Characters already collected, in front of what a quoted string still holds. */
  function Prepend(parts: string, r: Result<(string, string)>): Result<(string, string)> {
    match r
    case Err => Err
    case Ok(p) => Ok((parts + p.0, p.1))
  }

  lemma QuotedStep(text: string, position: nat, parts: string)
    requires position < |text| && text[position] != '"'
    ensures text[position] != '\\' ==>
      Prepend(parts, ReadQuoted(text[position..]))
        == Prepend(parts + [text[position]], ReadQuoted(text[position + 1..]))
    ensures text[position] == '\\' && position + 1 < |text| ==>
      Prepend(parts, ReadQuoted(text[position..]))
        == Prepend(parts + [text[position + 1]], ReadQuoted(text[position + 2..]))
  {
    var s := text[position..];
    assert s[1..] == text[position + 1..];
    if s[0] == '\\' {
      if position + 1 < |text| {
        assert s[2..] == text[position + 2..];
        PrependJoins(parts, text[position + 1], ReadQuoted(text[position + 2..]));
      }
    } else {
      PrependJoins(parts, text[position], ReadQuoted(text[position + 1..]));
    }
  }

  lemma PrependJoins(parts: string, c: char, r: Result<(string, string)>)
    ensures Prepend(parts, Prepend([c], r)) == Prepend(parts + [c], r)
    ensures Prepend("", r) == r
  {
    if r.Ok? { assert parts + ([c] + r.value.0) == parts + [c] + r.value.0 && "" + r.value.0 == r.value.0; }
  }

  method QuotedAt(text: string, start: nat) returns (r: Result<(string, nat)>)
    requires start <= |text|
    ensures r.Err? <==> ReadQuoted(text[start..]).Err?
    ensures r.Ok? ==> r.value.1 <= |text| && ReadQuoted(text[start..]) == Ok((r.value.0, text[r.value.1..]))
  {
    var position, parts := start, "";
    PrependJoins("", ' ', ReadQuoted(text[start..]));
    while position < |text|
      invariant start <= position <= |text|
      invariant ReadQuoted(text[start..]) == Prepend(parts, ReadQuoted(text[position..]))
      decreases |text| - position
    {
      var c := text[position];
      if c == '"' {
        assert text[position..][1..] == text[position + 1..] && parts + "" == parts;
        return Ok((parts, position + 1));
      }
      QuotedStep(text, position, parts);
      if c == '\\' {
        if position + 1 == |text| { return Err; }
        parts := parts + [text[position + 1]];
        position := position + 2;
      } else {
        parts := parts + [c];
        position := position + 1;
      }
    }
    return Err;
  }

  method ValueAt(text: string, position: nat) returns (r: Result<(string, nat)>)
    requires position <= |text|
    ensures r.Err? <==> ReadValue(text[position..]).Err?
    ensures r.Ok? ==> r.value.1 <= |text| && ReadValue(text[position..]) == Ok((r.value.0, text[r.value.1..]))
  {
    if position < |text| && text[position] == '"' {
      assert text[position..][1..] == text[position + 1..];
      r := QuotedAt(text, position + 1);
    } else {
      var end := TokenAt(text, position);
      if end == position { return Err; }
      assert text[position..][end - position..] == text[end..];
      assert text[position..][..end - position] == text[position..end];
      r := Ok((text[position..end], end));
    }
  }

  method ParameterAt(text: string, start: nat) returns (r: Result<(Parameter, nat)>)
    requires start <= |text|
    ensures r.Err? <==> ReadParameter(text[start..]).Err?
    ensures r.Ok? ==> r.value.1 <= |text| && ReadParameter(text[start..]) == Ok((r.value.0, text[r.value.1..]))
  {
    hide TokenLength, DropSpaces, ReadValue, Lower;
    var position := SkipSpaces(text, start);
    var end := TokenAt(text, position);
    if end == position || end >= |text| || text[end] != '=' { return Err; }
    assert text[position..][end - position + 1..] == text[end + 1..];
    var value := ValueAt(text, end + 1);
    if value.Err? { return Err; }
    assert text[position..][..end - position] == text[position..end];
    r := Ok((Fold(Lower(text[position..end]), value.value.0), value.value.1));
  }

  method EssenceOf(text: string) returns (r: Result<(string, nat)>)
    ensures r.Err? <==> ReadEssence(text).Err?
    ensures r.Ok? ==> r.value.1 <= |text| && ReadEssence(text) == Ok((r.value.0, text[r.value.1..]))
  {
    hide TokenLength, Lower, TokenChar;
    var slash := TokenAt(text, 0);
    assert text[0..] == text;
    if slash == 0 || slash >= |text| || text[slash] != '/' { return Err; }
    var end := TokenAt(text, slash + 1);
    assert text[slash + 1..][..end - slash - 1] == text[slash + 1..end];
    assert text[slash + 1..][end - slash - 1..] == text[end..];
    if end == slash + 1 || text[..slash] == "*" || text[slash + 1..end] == "*" { return Err; }
    r := Ok((Lower(text[..slash] + "/" + text[slash + 1..end]), end));
  }

  method ParametersFrom(text: string, start: nat) returns (r: Result<seq<Parameter>>)
    requires start <= |text|
    ensures r == ReadParameters(text[start..], [])
  {
    hide ReadParameter, Named;
    var position, parameters := start, [];
    while position < |text|
      invariant position <= |text|
      invariant ReadParameters(text[start..], []) == ReadParameters(text[position..], parameters)
      decreases |text| - position
    {
      ghost var whole := text[position..];
      position := SkipSpaces(text, position);
      if position == |text| { return Ok(parameters); }
      if text[position] != ';' { return Err; }
      assert text[position..][1..] == text[position + 1..];
      var p := ParameterAt(text, position + 1);
      if p.Err? { return Err; }
      var (parameter, end) := p.value;
      if Named(parameters, parameter.name) || |parameters| >= MEDIA_PARAMETER_LIMIT { return Err; }
      parameters, position := parameters + [parameter], end;
    }
    r := Ok(parameters);
  }

  method NormaliseMedia(value: string) returns (r: Result<string>)
    ensures r == Normalise(value)
  {
    hide ReadEssence, ReadParameters, Strip, Alias, Render, SortBy, Before;
    if |value| > MEDIA_TYPE_LIMIT || !Printable(value) { return Err; }
    var text := Strip(value);
    var essence := EssenceOf(text);
    if essence.Err? { return Err; }
    var parameters := ParametersFrom(text, essence.value.1);
    if parameters.Err? { return Err; }
    r := Ok(Render(Media(Alias(essence.value.0), SortBy(parameters.value, Before))));
  }

  // ---- Reading back what was written ----

  lemma {:induction false} TokenStops(s: string, rest: string)
    requires (s == "" || Token(s)) && (rest == "" || !TokenChar(rest[0]))
    ensures TokenLength(s + rest) == |s|
  {
    hide TokenChar;
    if s != "" {
      assert (s + rest)[1..] == s[1..] + rest;
      TokenStops(s[1..], rest);
    } else {
      assert s + rest == rest;
    }
  }

  lemma {:induction false} ReadEscaped(v: string, rest: string)
    ensures ReadQuoted(Escape(v) + "\"" + rest) == Ok((v, rest))
  {
    hide ReadQuoted;
    if v == "" {
      ReadClosing(rest);
      assert Escape(v) + "\"" + rest == "\"" + rest;
    } else {
      var tail := Escape(v[1..]) + "\"" + rest;
      ReadEscaped(v[1..], rest);
      assert v == [v[0]] + v[1..];
      if v[0] == '\\' || v[0] == '"' {
        ReadEscapedChar(v[0], tail);
        assert Escape(v) + "\"" + rest == ['\\', v[0]] + tail;
      } else {
        ReadPlainChar(v[0], tail);
        assert Escape(v) + "\"" + rest == [v[0]] + tail;
      }
    }
  }

  lemma ReadClosing(rest: string)
    ensures ReadQuoted("\"" + rest) == Ok(("", rest))
  {
    assert ("\"" + rest)[1..] == rest;
  }

  lemma ReadEscapedChar(c: char, tail: string)
    requires ReadQuoted(tail).Ok?
    ensures ReadQuoted(['\\', c] + tail) == Ok(([c] + ReadQuoted(tail).value.0, ReadQuoted(tail).value.1))
  {
    var s := ['\\', c] + tail;
    assert s[2..] == tail;
  }

  lemma ReadPlainChar(c: char, tail: string)
    requires ReadQuoted(tail).Ok? && c != '\\' && c != '"'
    ensures ReadQuoted([c] + tail) == Ok(([c] + ReadQuoted(tail).value.0, ReadQuoted(tail).value.1))
  {
    var s := [c] + tail;
    assert s[1..] == tail;
  }

  lemma ReadQuotedValue(v: string, rest: string)
    requires rest == "" || rest[0] == ';'
    ensures ReadValue(Quoted(v) + rest) == Ok((v, rest))
  {
    hide TokenChar, Token, ReadQuoted, Escape, TokenLength;
    if Token(v) {
      ReadToken(v, rest);
    } else {
      ReadEscaped(v, rest);
      assert (Quoted(v) + rest)[1..] == Escape(v) + "\"" + rest;
    }
  }

  lemma ReadToken(v: string, rest: string)
    requires Token(v) && (rest == "" || rest[0] == ';')
    ensures ReadValue(v + rest) == Ok((v, rest))
  {
    Separators();
    hide TokenChar;
    TokenStops(v, rest);
    assert (v + rest)[0] == v[0];
    assert (v + rest)[..|v|] == v && (v + rest)[|v|..] == rest;
  }

  lemma Separators()
    ensures !TokenChar(';') && !TokenChar('"') && !TokenChar('=') && !TokenChar('/') && !TokenChar(' ')
  {
  }

  lemma LowerFixed(s: string)
    ensures Lowered(Lower(s)) && |Lower(s)| == |s|
    ensures Lowered(s) ==> Lower(s) == s
    ensures Token(s) ==> Token(Lower(s))
    ensures Printable(s) ==> Printable(Lower(s))
  {
    forall i | 0 <= i < |s| && TokenChar(s[i]) ensures TokenChar(LowerChar(s[i])) {}
  }

  lemma ReadOneParameter(p: Parameter, rest: string)
    requires CanonicalParameter(p) && (rest == "" || rest[0] == ';')
    ensures |RenderParameter(p)| > 0 && (RenderParameter(p) + rest)[0] == ';'
    ensures ReadParameter((RenderParameter(p) + rest)[1..]) == Ok((p, rest))
  {
    Separators();
    hide TokenChar, Token, ReadValue, Quoted, Lower, TokenLength, Lowered, DropSpaces, Printable;
    TokenNonempty(p.name);
    var after := "=" + Quoted(p.value) + rest;
    var s := p.name + after;
    assert (RenderParameter(p) + rest)[1..] == s;
    assert DropSpaces(s) == s by { assert s[0] == p.name[0]; }
    TokenStops(p.name, after);
    var n := |p.name|;
    assert s[..n] == p.name && s[n] == '=' && s[n + 1..] == Quoted(p.value) + rest;
    ReadQuotedValue(p.value, rest);
    LowerFixed(p.name);
    LowerFixed(p.value);
  }

  lemma RenderStarts(ps: seq<Parameter>)
    ensures RenderParameters(ps) == "" || RenderParameters(ps)[0] == ';'
    ensures RenderParameters(ps) == "" <==> ps == []
  {
  }

  lemma {:induction false} ReadRendered(ps: seq<Parameter>, found: seq<Parameter>)
    requires forall i | 0 <= i < |ps| :: CanonicalParameter(ps[i])
    requires Ordered(found + ps) && |found + ps| <= MEDIA_PARAMETER_LIMIT
    ensures ReadParameters(RenderParameters(ps), found) == Ok(found + ps)
    decreases |ps|
  {
    hide CanonicalParameter, ReadParameter, RenderParameter, TextLess;
    if ps == [] {
      assert found + ps == found;
    } else {
      var rest := RenderParameters(ps[1..]);
      RenderStarts(ps[1..]);
      ReadOneParameter(ps[0], rest);
      FreshName(found, ps);
      assert RenderParameters(ps) == RenderParameter(ps[0]) + rest;
      ParametersStep(RenderParameters(ps), found, ps[0], rest);
      assert found + [ps[0]] + ps[1..] == found + ps;
      ReadRendered(ps[1..], found + [ps[0]]);
    }
  }

  lemma ParametersStep(s: string, found: seq<Parameter>, p: Parameter, rest: string)
    requires s != "" && s[0] == ';' && ReadParameter(s[1..]) == Ok((p, rest)) && |rest| < |s|
    requires !Named(found, p.name) && |found| < MEDIA_PARAMETER_LIMIT
    ensures ReadParameters(s, found) == ReadParameters(rest, found + [p])
  {
    assert DropSpaces(s) == s;
    hide ReadParameter, Named;
  }

  lemma {:induction false} TextIrreflexive(a: string)
    ensures !TextLess(a, a)
  {
    if a != "" { TextIrreflexive(a[1..]); }
  }

  lemma FreshName(found: seq<Parameter>, ps: seq<Parameter>)
    requires ps != [] && Ordered(found + ps)
    ensures !Named(found, ps[0].name)
  {
    TextIrreflexive(ps[0].name);
    forall i | 0 <= i < |found| ensures found[i].name != ps[0].name {
      assert Before((found + ps)[i], (found + ps)[|found|]);
    }
  }

  // ---- A canonical media type parses back to itself ----

  lemma {:induction false} TextTransitive(a: string, b: string, c: string)
    requires TextLess(a, b) && TextLess(b, c)
    ensures TextLess(a, c)
  {
    if a != "" && a[0] == b[0] && b[0] == c[0] { TextTransitive(a[1..], b[1..], c[1..]); }
  }

  lemma {:induction false} TextTotal(a: string, b: string)
    ensures TextLess(a, b) || a == b || TextLess(b, a)
  {
    if a != "" && b != "" && a[0] == b[0] {
      TextTotal(a[1..], b[1..]);
      assert a == [a[0]] + a[1..] && b == [b[0]] + b[1..];
    }
  }

  lemma TextAsymmetric(a: string, b: string)
    requires TextLess(a, b)
    ensures !TextLess(b, a)
  {
    TextIrreflexive(a);
    if TextLess(b, a) { TextTransitive(a, b, a); }
  }

  lemma OrderedStrictly(ps: seq<Parameter>)
    requires Ordered(ps)
    ensures StrictlySortedBy(ps, Before)
  {
    hide TextLess;
    forall i, j | 0 <= i < j < |ps| ensures !Before(ps[j], ps[i]) { TextAsymmetric(ps[i].name, ps[j].name); }
  }

  lemma {:induction false} EscapePrintable(v: string)
    requires Printable(v)
    ensures Printable(Escape(v))
  {
    if v != "" { EscapePrintable(v[1..]); }
  }

  lemma TokenPrintable(s: string)
    requires Token(s)
    ensures Printable(s)
  {
    forall i | 0 <= i < |s| ensures ' ' <= s[i] <= '~' { assert TokenChar(s[i]); }
  }

  lemma ParameterPrintable(p: Parameter)
    requires CanonicalParameter(p)
    ensures RenderParameter(p) != "" && Printable(RenderParameter(p))
        && RenderParameter(p)[|RenderParameter(p)| - 1] != ' '
  {
    Separators();
    hide TokenChar, Escape, Lowered;
    TokenPrintable(p.name);
    EscapePrintable(p.value);
    if Token(p.value) { assert TokenChar(p.value[|p.value| - 1]); }
  }

  lemma {:induction false} ParametersPrintable(ps: seq<Parameter>)
    requires forall i | 0 <= i < |ps| :: CanonicalParameter(ps[i])
    ensures Printable(RenderParameters(ps))
    ensures ps != [] ==> RenderParameters(ps) != "" && RenderParameters(ps)[|RenderParameters(ps)| - 1] != ' '
  {
    hide CanonicalParameter, RenderParameter;
    if ps != [] {
      ParameterPrintable(ps[0]);
      ParametersPrintable(ps[1..]);
    }
  }

  lemma StripFixed(s: string)
    requires s != "" && s[0] != ' ' && s[|s| - 1] != ' '
    ensures Strip(s) == s
  {
  }

  lemma TokenNonempty(s: string)
    requires Token(s)
    ensures s != "" && s[0] != ' '
  {
    Separators();
    assert TokenChar(s[0]);
    hide TokenChar;
  }

  lemma EssenceReads(e: string, i: nat, rest: string)
    requires EssenceAt(e, i) && Lowered(e) && (rest == "" || rest[0] == ';')
    ensures ReadEssence(e + rest) == Ok((e, rest))
  {
    Separators();
    hide TokenChar, Lower, TokenLength, Lowered, Token, ReadEssence;
    var kind, sub := e[..i], e[i + 1..];
    var after := "/" + (sub + rest);
    EssenceSplits(e, i, rest);
    TokenStops(kind, after);
    TokenStops(sub, rest);
    TextSplits(kind, after);
    TextSplits(sub, rest);
    TokenNonempty(kind);
    TokenNonempty(sub);
    LowerFixed(e);
    EssenceParts(e + rest, kind, sub, rest);
  }

  lemma EssenceSplits(e: string, i: nat, rest: string)
    requires i < |e| && e[i] == '/'
    ensures e + rest == e[..i] + ("/" + (e[i + 1..] + rest)) && e[..i] + "/" + e[i + 1..] == e
    ensures (e + rest)[i] == '/' && (e + rest)[i + 1..] == e[i + 1..] + rest
  {
  }

  lemma TextSplits(a: string, b: string)
    ensures (a + b)[..|a|] == a && (a + b)[|a|..] == b
  {
  }

  lemma EssenceParts(s: string, kind: string, sub: string, rest: string)
    requires kind != "" && sub != "" && kind != "*" && sub != "*"
    requires TokenLength(s) == |kind| < |s| && s[..|kind|] == kind && s[|kind|] == '/' && s[|kind| + 1..] == sub + rest
    requires TokenLength(sub + rest) == |sub| && (sub + rest)[..|sub|] == sub && (sub + rest)[|sub|..] == rest
    ensures ReadEssence(s) == Ok((Lower(kind + "/" + sub), rest))
  {
    hide TokenLength, Lower;
  }

  lemma EssencePrintable(e: string, i: nat)
    requires EssenceAt(e, i)
    ensures Printable(e) && e[0] != ' ' && e[|e| - 1] != ' '
  {
    TokenPrintable(e[..i]);
    TokenPrintable(e[i + 1..]);
    assert e[0] == e[..i][0] && e[|e| - 1] == e[i + 1..][|e| - i - 2];
    assert TokenChar(e[..i][0]) && TokenChar(e[i + 1..][|e| - i - 2]);
    forall k | 0 <= k < |e| ensures ' ' <= e[k] <= '~' {
      if k < i { assert e[k] == e[..i][k]; } else if k > i { assert e[k] == e[i + 1..][k - i - 1]; }
    }
  }

  lemma RenderAccepted(m: Media, i: nat)
    requires EssenceAt(m.essence, i) && forall k | 0 <= k < |m.parameters| :: CanonicalParameter(m.parameters[k])
    ensures Printable(Render(m)) && Strip(Render(m)) == Render(m)
  {
    EssencePrintable(m.essence, i);
    assert m.essence != "";
    ParametersPrintable(m.parameters);
    RenderStarts(m.parameters);
    hide EssenceAt, CanonicalParameter, RenderParameters, Strip;
    StripFixed(Render(m));
  }

  lemma ParsedAs(value: string, essence: string, rest: string, ps: seq<Parameter>)
    requires |value| <= MEDIA_TYPE_LIMIT && Printable(value)
    requires ReadEssence(Strip(value)) == Ok((essence, rest)) && ReadParameters(rest, []) == Ok(ps)
    ensures Parse(value) == Ok(Media(Alias(essence), SortBy(ps, Before)))
  {
    hide ReadEssence, ReadParameters, Strip, Printable, Alias, SortBy, Before;
  }

  // ---- Whatever parses is canonical ----

  lemma {:induction false} QuotedPrintable(s: string)
    requires Printable(s) && ReadQuoted(s).Ok?
    ensures Printable(ReadQuoted(s).value.0) && Printable(ReadQuoted(s).value.1)
    ensures |Escape(ReadQuoted(s).value.0)| + 1 + |ReadQuoted(s).value.1| <= |s|
  {
    var v, rest := ReadQuoted(s).value.0, ReadQuoted(s).value.1;
    if s[0] == '"' {
    } else if s[0] == '\\' {
      QuotedPrintable(s[2..]);
      assert v[1..] == ReadQuoted(s[2..]).value.0;
    } else {
      QuotedPrintable(s[1..]);
      assert v[1..] == ReadQuoted(s[1..]).value.0;
    }
  }

  lemma ValuePrintable(s: string)
    requires Printable(s) && ReadValue(s).Ok?
    ensures Printable(ReadValue(s).value.0) && Printable(ReadValue(s).value.1)
    ensures |Quoted(ReadValue(s).value.0)| + |ReadValue(s).value.1| <= |s|
  {
    hide TokenChar, Token, Printable, ReadQuoted, Escape, TokenLength;
    if s != "" && s[0] == '"' {
      PrintableTail(s, 1);
      QuotedPrintable(s[1..]);
      TokenShorter(ReadQuoted(s[1..]).value.0);
    } else {
      PrintableTail(s, TokenLength(s));
    }
  }

  lemma {:induction false} EscapeGrows(v: string)
    ensures |v| <= |Escape(v)|
  {
    if v != "" { EscapeGrows(v[1..]); }
  }

  lemma TokenShorter(v: string)
    ensures |Quoted(v)| <= |Escape(v)| + 2
  {
    EscapeGrows(v);
  }

  lemma {:induction false} EscapeLower(v: string)
    ensures |Escape(Lower(v))| == |Escape(v)|
  {
    if v != "" {
      EscapeLower(v[1..]);
      assert Lower(v)[1..] == Lower(v[1..]);
    }
  }

  lemma {:induction false} LowerToken(v: string)
    ensures Token(Lower(v)) <==> Token(v)
  {
    forall i | 0 <= i < |v| ensures TokenChar(LowerChar(v[i])) <==> TokenChar(v[i]) {}
    assert forall i | 0 <= i < |v| :: Lower(v)[i] == LowerChar(v[i]);
    hide TokenChar, LowerChar;
    if Token(Lower(v)) {
      forall i | 0 <= i < |v| ensures TokenChar(v[i]) { assert TokenChar(Lower(v)[i]); }
    }
  }

  lemma QuotedLower(v: string)
    ensures |Quoted(Lower(v))| == |Quoted(v)|
  {
    hide Token, Escape, Lower;
    LowerToken(v);
    EscapeLower(v);
    LowerFixed(v);
  }

  lemma {:induction false} DropPrintable(s: string)
    requires Printable(s)
    ensures Printable(DropSpaces(s))
  {
    if s != "" && s[0] == ' ' { DropPrintable(s[1..]); }
  }

  lemma ParameterCanonical(s: string)
    requires Printable(s) && ReadParameter(s).Ok?
    ensures CanonicalParameter(ReadParameter(s).value.0) && Printable(ReadParameter(s).value.1)
    ensures |RenderParameter(ReadParameter(s).value.0)| + |ReadParameter(s).value.1| <= |s| + 1
  {
    hide TokenChar, Token, Quoted, Lower, Lowered, Printable, ReadValue, DropSpaces, TokenLength;
    DropPrintable(s);
    var t := DropSpaces(s);
    var n := TokenLength(t);
    PrintableTail(t, n + 1);
    ValuePrintable(t[n + 1..]);
    var v := ReadValue(t[n + 1..]).value.0;
    LowerFixed(t[..n]);
    LowerFixed(v);
    QuotedLower(v);
  }

  lemma PrintableTail(s: string, n: nat)
    requires Printable(s) && n <= |s|
    ensures Printable(s[..n]) && Printable(s[n..])
  {
  }

  predicate DistinctNames(ps: seq<Parameter>) {
    forall i, j | 0 <= i < j < |ps| :: ps[i].name != ps[j].name
  }

  predicate AllCanonical(ps: seq<Parameter>) {
    forall i | 0 <= i < |ps| :: CanonicalParameter(ps[i])
  }

  lemma {:induction false} RenderAppends(ps: seq<Parameter>, p: Parameter)
    ensures RenderParameters(ps + [p]) == RenderParameters(ps) + RenderParameter(p)
  {
    hide RenderParameter;
    if ps != [] {
      RenderAppends(ps[1..], p);
      assert (ps + [p])[1..] == ps[1..] + [p];
    } else {
      assert ps + [p] == [p] && [p][1..] == [];
    }
  }

  /** Parameters read are canonical, distinct and few, and take no more room rendered than read. */
  lemma {:induction false} ParametersCanonical(s: string, found: seq<Parameter>)
    requires Printable(s) && AllCanonical(found) && DistinctNames(found) && |found| <= MEDIA_PARAMETER_LIMIT
    requires ReadParameters(s, found).Ok?
    ensures var ps := ReadParameters(s, found).value;
      AllCanonical(ps) && DistinctNames(ps) && |ps| <= MEDIA_PARAMETER_LIMIT
      && |RenderParameters(ps)| <= |RenderParameters(found)| + |s|
    decreases |s|
  {
    hide CanonicalParameter, RenderParameter, ReadParameter, RenderParameters, DropSpaces;
    DropPrintable(s);
    var t := DropSpaces(s);
    if t != "" {
      ParameterCanonical(t[1..]);
      var p, rest := ReadParameter(t[1..]).value.0, ReadParameter(t[1..]).value.1;
      RenderAppends(found, p);
      ParametersCanonical(rest, found + [p]);
    }
  }

  lemma {:induction false} InsertLength(x: Parameter, xs: seq<Parameter>)
    ensures |RenderParameters(InsertBy(x, xs, Before))| == |RenderParameters(xs)| + |RenderParameter(x)|
  {
    hide RenderParameter, Before;
    if xs == [] || Before(x, xs[0]) {
      assert ([x] + xs)[1..] == xs;
    } else {
      InsertLength(x, xs[1..]);
      assert ([xs[0]] + InsertBy(x, xs[1..], Before))[1..] == InsertBy(x, xs[1..], Before);
    }
  }

  lemma {:induction false} SortLength(ps: seq<Parameter>)
    ensures |RenderParameters(SortBy(ps, Before))| == |RenderParameters(ps)|
  {
    hide RenderParameter, Before, RenderParameters, InsertBy;
    if ps != [] {
      var init, last := ps[..|ps| - 1], ps[|ps| - 1];
      SortLength(init);
      InsertLength(last, SortBy(init, Before));
      RenderAppends(init, last);
      assert init + [last] == ps;
    }
  }

  lemma {:induction false} NeighboursOrdered(ps: seq<Parameter>, i: nat, j: nat)
    requires SortedBy(ps, Before) && DistinctNames(ps) && i < j < |ps|
    ensures Before(ps[i], ps[j])
    decreases j - i
  {
    hide TextLess;
    var k := j - 1;
    assert !Before(ps[k + 1], ps[k]);
    TextTotal(ps[k].name, ps[k + 1].name);
    if i < k {
      NeighboursOrdered(ps, i, k);
      TextTransitive(ps[i].name, ps[k].name, ps[j].name);
    }
  }

  lemma {:induction false} InsertDistinct(x: Parameter, xs: seq<Parameter>)
    requires DistinctNames(xs) && !Named(xs, x.name)
    ensures DistinctNames(InsertBy(x, xs, Before))
    ensures forall name :: Named(InsertBy(x, xs, Before), name) <==> name == x.name || Named(xs, name)
  {
    hide Before;
    if !(xs == [] || Before(x, xs[0])) {
      var tail := InsertBy(x, xs[1..], Before);
      assert !Named(xs[1..], x.name) by { NamedTail(xs, x.name); }
      InsertDistinct(x, xs[1..]);
      forall name ensures Named(xs, name) <==> name == xs[0].name || Named(xs[1..], name) { NamedTail(xs, name); }
      forall name ensures Named([xs[0]] + tail, name) <==> name == xs[0].name || Named(tail, name) {
        NamedTail([xs[0]] + tail, name);
        assert ([xs[0]] + tail)[1..] == tail;
      }
      assert !Named(tail, xs[0].name);
      DistinctCons(xs[0], tail);
    } else {
      forall name ensures Named([x] + xs, name) <==> name == x.name || Named(xs, name) {
        NamedTail([x] + xs, name);
        assert ([x] + xs)[1..] == xs;
      }
      DistinctCons(x, xs);
    }
  }

  lemma NamedTail(xs: seq<Parameter>, name: string)
    requires xs != []
    ensures Named(xs, name) <==> name == xs[0].name || Named(xs[1..], name)
  {
    if i :| 0 <= i < |xs| && xs[i].name == name { if i > 0 { assert xs[1..][i - 1].name == name; } }
    if i :| 0 <= i < |xs[1..]| && xs[1..][i].name == name { assert xs[i + 1].name == name; }
  }

  lemma DistinctCons(x: Parameter, xs: seq<Parameter>)
    requires DistinctNames(xs) && !Named(xs, x.name)
    ensures DistinctNames([x] + xs)
  {
    assert forall j | 0 <= j < |xs| :: xs[j].name != x.name;
  }

  lemma {:induction false} SortDistinct(ps: seq<Parameter>)
    requires DistinctNames(ps)
    ensures DistinctNames(SortBy(ps, Before))
    ensures forall name :: Named(SortBy(ps, Before), name) <==> Named(ps, name)
  {
    hide Before, InsertBy;
    if ps != [] {
      var init, last := ps[..|ps| - 1], ps[|ps| - 1];
      SortDistinct(init);
      assert ps == init + [last];
      assert !Named(init, last.name);
      InsertDistinct(last, SortBy(init, Before));
      forall name ensures Named(ps, name) <==> name == last.name || Named(init, name) {
        if name == last.name { assert ps[|ps| - 1].name == name; }
        if Named(init, name) { var i :| 0 <= i < |init| && init[i].name == name; assert ps[i].name == name; }
      }
    }
  }

  lemma SortCanonical(ps: seq<Parameter>)
    requires AllCanonical(ps) && DistinctNames(ps)
    ensures AllCanonical(SortBy(ps, Before)) && Ordered(SortBy(ps, Before)) && |SortBy(ps, Before)| == |ps|
  {
    hide CanonicalParameter, TextLess, SortBy, DistinctNames;
    var sorted := SortBy(ps, Before);
    SortByPermutes(ps, Before);
    forall p, q | p in ps && q in ps && Before(p, q) ensures !Before(q, p) { TextAsymmetric(p.name, q.name); }
    SortBySorts(ps, Before);
    SortDistinct(ps);
    forall i, j | 0 <= i < j < |sorted| ensures Before(sorted[i], sorted[j]) { NeighboursOrdered(sorted, i, j); }
    forall i | 0 <= i < |sorted| ensures CanonicalParameter(sorted[i]) { MemberByMultiset(sorted, ps, sorted[i]); }
  }

  // ---- Essences ----

  lemma {:induction false} TokenOf(s: string)
    requires s != "" && forall i | 0 <= i < |s| :: 'a' <= s[i] <= 'z'
    ensures Token(s) && Lowered(s) && s != "*"
  {
    assert s[0] != "*"[0];
  }

  lemma LetterEssence(kind: string, sub: string)
    requires kind != "" && forall i | 0 <= i < |kind| :: 'a' <= kind[i] <= 'z'
    requires sub != "" && forall i | 0 <= i < |sub| :: 'a' <= sub[i] <= 'z'
    ensures EssenceAt(kind + "/" + sub, |kind|) && Lowered(kind + "/" + sub)
  {
    hide TokenChar;
    TokenOf(kind);
    TokenOf(sub);
    var e := kind + "/" + sub;
    assert e[..|kind|] == kind && e[|kind| + 1..] == sub;
  }

  lemma AliasCanonical(e: string, i: nat)
    requires Lowered(e) && EssenceAt(e, i)
    ensures CanonicalEssence(Alias(e)) && |Alias(e)| <= |e|
  {
    hide EssenceAt, Lowered;
    TargetsCanonical();
    AliasShorter(e);
    Inside(e, i);
    if Alias(e) == e { assert EssenceAt(e, i); }
  }

  /** The registered names that aliases stand for are essences. */
  lemma TargetsCanonical()
    ensures EssenceAt("text/javascript", 4) && Lowered("text/javascript")
    ensures EssenceAt("audio/wav", 5) && Lowered("audio/wav")
    ensures EssenceAt("audio/flac", 5) && Lowered("audio/flac")
  {
    hide EssenceAt, Lowered;
    LetterEssence("text", "javascript");
    LetterEssence("audio", "wav");
    LetterEssence("audio", "flac");
    assert "text" + "/" + "javascript" == "text/javascript";
    assert "audio" + "/" + "wav" == "audio/wav";
    assert "audio" + "/" + "flac" == "audio/flac";
  }

  /** An alias is no shorter than what it stands for, which is no alias itself. */
  lemma AliasShorter(e: string)
    ensures |Alias(e)| <= |e| && Alias(Alias(e)) == Alias(e)
    ensures Alias(e) != e ==> Alias(e) in ["text/javascript", "audio/wav", "audio/flac"]
  {
  }

  lemma Inside(e: string, i: nat)
    requires EssenceAt(e, i)
    ensures i < |e|
  {
  }

  lemma EssenceCanonical(s: string)
    requires ReadEssence(s).Ok? && Printable(s)
    ensures CanonicalEssence(Alias(ReadEssence(s).value.0)) && Printable(ReadEssence(s).value.1)
    ensures |Alias(ReadEssence(s).value.0)| + |ReadEssence(s).value.1| <= |s|
  {
    hide TokenChar, Alias, Lower, TokenLength, CanonicalEssence;
    var n := TokenLength(s);
    var kind, t := s[..n], s[n + 1..];
    var sub := t[..TokenLength(t)];
    var e := Lower(kind + "/" + sub);
    LowerSplit(kind, sub);
    AliasCanonical(e, n);
  }

  lemma LowerSplit(kind: string, sub: string)
    requires Token(kind) && Token(sub) && kind != "*" && sub != "*"
    ensures EssenceAt(Lower(kind + "/" + sub), |kind|) && Lowered(Lower(kind + "/" + sub))
    ensures |Lower(kind + "/" + sub)| == |kind| + 1 + |sub|
  {
    hide TokenChar;
    var e := Lower(kind + "/" + sub);
    LowerFixed(kind);
    LowerFixed(sub);
    LowerFixed(kind + "/" + sub);
    assert e[..|kind|] == Lower(kind) && e[|kind| + 1..] == Lower(sub);
    LowerStar(kind);
    LowerStar(sub);
  }

  lemma LowerStar(s: string)
    ensures Lower(s) == "*" ==> s == "*"
  {
    if Lower(s) == "*" { assert |s| == 1 && LowerChar(s[0]) == Lower(s)[0] == '*'; }
  }

  lemma {:induction false} TrailingPrintable(s: string)
    requires Printable(s)
    ensures Printable(DropTrailing(s))
  {
    if s != "" && s[|s| - 1] == ' ' { TrailingPrintable(s[..|s| - 1]); }
  }

  lemma CanonicalOrdered(m: Media)
    requires Canonical(m)
    ensures Ordered(m.parameters)
  {
  }

  lemma {:induction false} HeadStops(e: string, rest: string)
    requires (forall i | 0 <= i < |e| :: e[i] != ';') && (rest == "" || rest[0] == ';')
    ensures Head(e + rest) == e
  {
    if e != "" {
      assert (e + rest)[1..] == e[1..] + rest;
      HeadStops(e[1..], rest);
    } else {
      assert e + rest == rest;
    }
  }

  lemma NoSemicolon(e: string, i: nat)
    requires EssenceAt(e, i)
    ensures forall k | 0 <= k < |e| :: e[k] != ';'
  {
    Separators();
    hide TokenChar;
    forall k | 0 <= k < |e| ensures e[k] != ';' {
      if k < i { assert TokenChar(e[..i][k]); } else if k > i { assert TokenChar(e[i + 1..][k - i - 1]); }
    }
  }
}
