/**
 The strict canonical CBOR codec (sections 4.2.1 and 3.4.3 of RFC 8949): `Encode` prints a value,
 `Parse` is the recursive description of the reader.
 */
module Cbor {
  import opened Prelude

  /** A decoded value. Text is held as its UTF-8 bytes. */
  datatype Value =
    | Null
    | Bool(b: bool)
    | Int(i: int)
    | Float(bits: seq<byte>)
    | Bytes(data: seq<byte>)
    | Text(utf8: seq<byte>)
    | Array(items: seq<Value>)
    | Map(entries: seq<Pair>)
    | Tag(number: nat, value: Value)

  datatype Pair = Pair(key: Value, value: Value)

  // ----- Encoding -----

  function Head(major: nat, argument: nat): (h: seq<byte>)
    requires major < 8
  {
    var prefix := major * 32;
    if argument < 24 then [prefix + argument]
    else if argument < 0x100 then [prefix + 24] + BigEndian(argument, 1)
    else if argument < 0x1_0000 then [prefix + 25] + BigEndian(argument, 2)
    else if argument < 0x1_0000_0000 then [prefix + 26] + BigEndian(argument, 4)
    else if argument < U64 then [prefix + 27] + BigEndian(argument, 8)
    else []  // the source raises ValueError; no well-formed value reaches this
  }

  function EncodeBytes(data: seq<byte>): seq<byte> { Head(2, |data|) + data }

  function Encode(v: Value): seq<byte>
    decreases v, 0
  {
    match v
    case Null => [0xf6]
    case Bool(b) => if b then [0xf5] else [0xf4]
    case Int(i) =>
      if 0 <= i < U64 then Head(0, i)
      else if i >= U64 then [0xc2] + EncodeBytes(Minimal(i))
      else if -1 - i < U64 then Head(1, -1 - i)
      else [0xc3] + EncodeBytes(Minimal(-1 - i))
    case Float(bits) => [0xfb] + bits
    case Bytes(data) => EncodeBytes(data)
    case Text(utf8) => Head(3, |utf8|) + utf8
    case Array(items) => Head(4, |items|) + EncodeAll(items)
    case Map(entries) => Head(5, |entries|) + EncodePairs(entries)
    case Tag(number, value) => Head(6, number) + Encode(value)
  }

  function EncodeAll(vs: seq<Value>): seq<byte>
    decreases vs, 0
  {
    if |vs| == 0 then [] else Encode(vs[0]) + EncodeAll(vs[1..])
  }

  function EncodePairs(ps: seq<Pair>): seq<byte>
    decreases ps, 0
  {
    if |ps| == 0 then []
    else
      assert (ps decreases to ps[0]);
      match ps[0]
      case Pair(key, value) => Encode(key) + Encode(value) + EncodePairs(ps[1..])
  }

  // ----- Well-formed values and their cost -----

  /** The registered tags a reader admits and its two resource limits. */
  datatype Config = Config(tags: set<nat>, maxDepth: nat, maxItems: nat)

  const CANONICAL_NAN: seq<byte> := [0x7f, 0xf8, 0, 0, 0, 0, 0, 0]

  /** The tag of a stored Blob reference, descriptor included. */
  const STORED_BLOB_TAG := 60111

  /** Only one NaN has a canonical form. */
  predicate CanonicalFloat(bits: seq<byte>) {
    var n := FromBigEndian(bits);
    var exponent := (n / 0x10_0000_0000_0000) % 0x800;
    var mantissa := n % 0x10_0000_0000_0000;
    !(exponent == 0x7ff && mantissa != 0) || bits == CANONICAL_NAN
  }

  predicate Continuation(b: byte) { 0x80 <= b < 0xc0 }

  /** Well-formed UTF-8: no overlong form, no surrogate, nothing above U+10FFFF. */
  predicate Utf8(s: seq<byte>) {
    if |s| == 0 then true
    else if s[0] < 0x80 then Utf8(s[1..])
    else if 0xc2 <= s[0] < 0xe0 then |s| >= 2 && Continuation(s[1]) && Utf8(s[2..])
    else if 0xe0 <= s[0] < 0xf0 then
      && |s| >= 3 && Continuation(s[1]) && Continuation(s[2])
      && (s[0] == 0xe0 ==> s[1] >= 0xa0) && (s[0] == 0xed ==> s[1] < 0xa0)
      && Utf8(s[3..])
    else if 0xf0 <= s[0] < 0xf5 then
      && |s| >= 4 && Continuation(s[1]) && Continuation(s[2]) && Continuation(s[3])
      && (s[0] == 0xf0 ==> s[1] >= 0x90) && (s[0] == 0xf4 ==> s[1] < 0x90)
      && Utf8(s[4..])
    else false
  }

  predicate Small(i: int) { 0 <= i + U64 && i < U64 }

  function Magnitude(i: int): nat { if i >= 0 then i else -1 - i }

  /** Values whose encoding is one item with nothing nested in it. */
  predicate Atomic(v: Value) {
    match v
    case Null => true
    case Bool(_) => true
    case Int(i) => Small(i)
    case Float(bits) => |bits| == 8 && CanonicalFloat(bits)
    case Bytes(data) => |data| < U64
    case Text(utf8) => |utf8| < U64 && Utf8(utf8)
    case _ => false
  }

  /** Values with a canonical encoding under a set of registered tags. */
  predicate WellFormed(v: Value, tags: set<nat>)
    decreases v, 0
  {
    match v
    case Int(i) => Small(i) || ((if i >= 0 then 2 else 3) in tags && |Minimal(Magnitude(i))| < U64)
    case Array(items) => |items| < U64 && AllWellFormed(items, tags)
    case Map(entries) => |entries| < U64 && PairsWellFormed(entries, tags) && KeysAscend(entries)
    case Tag(number, value) =>
      number in tags && number < U64 && number != 2 && number != 3 && WellFormed(value, tags)
    case _ => Atomic(v)
  }

  predicate AllWellFormed(vs: seq<Value>, tags: set<nat>)
    decreases vs, 0
  {
    |vs| == 0 || (WellFormed(vs[0], tags) && AllWellFormed(vs[1..], tags))
  }

  predicate PairsWellFormed(ps: seq<Pair>, tags: set<nat>)
    decreases ps, 0
  {
    if |ps| == 0 then true
    else
      assert (ps decreases to ps[0]);
      match ps[0]
      case Pair(key, value) => WellFormed(key, tags) && WellFormed(value, tags) && PairsWellFormed(ps[1..], tags)
  }

  /** Map keys rise strictly in the order of their encodings, so none repeats. */
  predicate KeysAscend(ps: seq<Pair>) {
    |ps| <= 1 || (LexLess(Encode(ps[0].key), Encode(ps[1].key)) && KeysAscend(ps[1..]))
  }

  /** How many nesting levels a value opens below its own. */
  function Depth(v: Value): nat
    decreases v, 0
  {
    match v
    case Int(i) => if Small(i) then 0 else 1
    case Array(items) => DepthAll(items)
    case Map(entries) => DepthPairs(entries)
    case Tag(_, value) => 1 + Depth(value)
    case _ => 0
  }

  function DepthAll(vs: seq<Value>): nat
    decreases vs, 0
  {
    if |vs| == 0 then 0 else Max(1 + Depth(vs[0]), DepthAll(vs[1..]))
  }

  function DepthPairs(ps: seq<Pair>): nat
    decreases ps, 0
  {
    if |ps| == 0 then 0
    else
      assert (ps decreases to ps[0]);
      match ps[0]
      case Pair(key, value) => Max(1 + Max(Depth(key), Depth(value)), DepthPairs(ps[1..]))
  }

  /** How many CBOR items a value's encoding holds. */
  function Items(v: Value): (n: nat)
    ensures n >= 1
    decreases v, 0
  {
    match v
    case Int(i) => if Small(i) then 1 else 2
    case Array(items) => 1 + ItemsAll(items)
    case Map(entries) => 1 + ItemsPairs(entries)
    case Tag(_, value) => 1 + Items(value)
    case _ => 1
  }

  function ItemsAll(vs: seq<Value>): nat
    decreases vs, 0
  {
    if |vs| == 0 then 0 else Items(vs[0]) + ItemsAll(vs[1..])
  }

  function ItemsPairs(ps: seq<Pair>): nat
    decreases ps, 0
  {
    if |ps| == 0 then 0
    else
      assert (ps decreases to ps[0]);
      match ps[0]
      case Pair(key, value) => Items(key) + Items(value) + ItemsPairs(ps[1..])
  }

  // ----- Parsing: the reader on the bytes it has not consumed yet -----

  datatype Parsed<+T> = Bad | Good(value: T, rest: seq<byte>, items: nat)

  datatype HeadRead = NoHead | HeadIs(major: nat, argument: nat, rest: seq<byte>)

  /** The smallest argument that needs a head of this width. */
  function ShortestFor(width: nat): nat {
    if width == 1 then 24 else if width == 2 then 0x100 else if width == 4 then 0x1_0000 else 0x1_0000_0000
  }

  function ReadHead(s: seq<byte>): (r: HeadRead)
    ensures r.HeadIs? ==> |r.rest| < |s| && r.major < 8
  {
    if |s| == 0 then NoHead
    else
      var major, info := s[0] / 32, s[0] % 32;
      if info < 24 then HeadIs(major, info, s[1..])
      else if info > 27 then NoHead
      else
        var width := Width(info);
        if |s| < 1 + width then NoHead
        else
          var argument := FromBigEndian(s[1..1 + width]);
          if argument < ShortestFor(width) then NoHead else HeadIs(major, argument, s[1 + width..])
  }

  /** What one head introduces: a complete item, or a container whose items follow. */
  datatype Token =
    | NoToken
    | Atom(value: Value, rest: seq<byte>)
    | ArrayOf(count: nat, rest: seq<byte>)
    | MapOf(count: nat, rest: seq<byte>)
    | TagOf(number: nat, rest: seq<byte>)

  function ReadToken(s: seq<byte>): (t: Token)
    ensures !t.NoToken? ==> |t.rest| < |s|
  {
    if |s| == 0 then NoToken
    else if s[0] / 32 == 7 then ReadSimple(s)
    else
      match ReadHead(s)
      case NoHead => NoToken
      case HeadIs(major, argument, rest) =>
        if major == 0 then Atom(Int(argument), rest)
        else if major == 1 then Atom(Int(-1 - argument), rest)
        else if major == 2 then
          if argument > |rest| then NoToken else Atom(Bytes(rest[..argument]), rest[argument..])
        else if major == 3 then
          if argument > |rest| || !Utf8(rest[..argument]) then NoToken
          else Atom(Text(rest[..argument]), rest[argument..])
        else if major == 4 then
          if argument > |rest| then NoToken else ArrayOf(argument, rest)
        else if major == 5 then
          if 2 * argument > |rest| then NoToken else MapOf(argument, rest)
        else TagOf(argument, rest)
  }

  function ReadSimple(s: seq<byte>): (t: Token)
    requires |s| > 0
    ensures !t.NoToken? ==> |t.rest| < |s|
  {
    var info := s[0] % 32;
    if info == 20 then Atom(Bool(false), s[1..])
    else if info == 21 then Atom(Bool(true), s[1..])
    else if info == 22 then Atom(Null, s[1..])
    else if info == 27 && |s| >= 9 && CanonicalFloat(s[1..9]) then Atom(Float(s[1..9]), s[9..])
    else NoToken
  }

  /** A tag over its payload; tags 2 and 3 are integers too wide for a head. */
  function Tagged(number: nat, payload: Value): Result<Value> {
    if number == 2 || number == 3 then
      if !payload.Bytes? || |payload.data| < 9 || payload.data[0] == 0 then Err
      else
        var magnitude := FromBigEndian(payload.data);
        Ok(Int(if number == 2 then magnitude else -1 - magnitude))
    else Ok(Tag(number, payload))
  }

  /** One item, with the nesting depth and the number of items read before it. */
  function Parse(s: seq<byte>, depth: nat, items: nat, c: Config): (r: Parsed<Value>)
    ensures r.Good? ==> |r.rest| < |s|
    decreases |s|, 0
  {
    if depth > c.maxDepth || items + 1 > c.maxItems then Bad
    else
      match ReadToken(s)
      case NoToken => Bad
      case Atom(v, rest) => Good(v, rest, items + 1)
      case ArrayOf(count, rest) =>
        (match ParseMany(rest, count, depth + 1, items + 1, c)
         case Bad => Bad
         case Good(vs, rest', n) => Good(Array(vs), rest', n))
      case MapOf(count, rest) =>
        (match ParsePairs(rest, count, None, depth + 1, items + 1, c)
         case Bad => Bad
         case Good(ps, rest', n) => Good(Map(ps), rest', n))
      case TagOf(number, rest) =>
        if number !in c.tags then Bad
        else
          match Parse(rest, depth + 1, items + 1, c)
          case Bad => Bad
          case Good(payload, rest', n) =>
            match Tagged(number, payload)
            case Err => Bad
            case Ok(v) => Good(v, rest', n)
  }

  function ParseMany(s: seq<byte>, count: nat, depth: nat, items: nat, c: Config): (r: Parsed<seq<Value>>)
    ensures r.Good? ==> |r.rest| <= |s| && |r.value| == count
    decreases |s|, 1
  {
    if count == 0 then Good([], s, items)
    else
      match Parse(s, depth, items, c)
      case Bad => Bad
      case Good(v, rest, n) =>
        match ParseMany(rest, count - 1, depth, n, c)
        case Bad => Bad
        case Good(vs, rest', n') => Good([v] + vs, rest', n')
  }

  function ParsePairs(s: seq<byte>, count: nat, previous: Option<seq<byte>>, depth: nat, items: nat, c: Config)
    : (r: Parsed<seq<Pair>>)
    ensures r.Good? ==> |r.rest| <= |s| && |r.value| == count
    decreases |s|, 1
  {
    if count == 0 then Good([], s, items)
    else
      match Parse(s, depth, items, c)
      case Bad => Bad
      case Good(key, rest, n) =>
        var raw := s[..|s| - |rest|];
        if previous.Some? && !LexLess(previous.value, raw) then Bad
        else
          match Parse(rest, depth, n, c)
          case Bad => Bad
          case Good(value, rest', n') =>
            match ParsePairs(rest', count - 1, Some(raw), depth, n', c)
            case Bad => Bad
            case Good(ps, rest'', n'') => Good([Pair(key, value)] + ps, rest'', n'')
  }

  /** decode_canonical: one item and nothing after it. */
  function Decode(data: seq<byte>, c: Config): Result<Value> {
    match Parse(data, 0, 0, c)
    case Bad => Err
    case Good(v, rest, _) => if |rest| == 0 then Ok(v) else Err
  }

  // ----- Heads and tokens -----

  function Width(info: nat): nat {
    if info == 24 then 1 else if info == 25 then 2 else if info == 26 then 4 else 8
  }

  lemma WideHead(major: nat, info: nat, bytes: seq<byte>)
    requires major < 8 && 24 <= info <= 27 && |bytes| == Width(info)
    requires FromBigEndian(bytes) >= ShortestFor(Width(info))
    ensures FromBigEndian(bytes) < U64
    ensures Head(major, FromBigEndian(bytes)) == [major * 32 + info] + bytes
  {
    hide FromBigEndian, BigEndian, Pow;
    PowersOf256();
    FromBigEndianBound(bytes);
    BigEndianInverse(bytes);
  }

  lemma HeadSound(s: seq<byte>)
    requires ReadHead(s).HeadIs?
    ensures var HeadIs(major, argument, rest) := ReadHead(s);
            argument < U64 && major == s[0] / 32 && s == Head(major, argument) + rest
  {
    hide FromBigEndian, BigEndian;
    var major, info := s[0] / 32, s[0] % 32;
    if info < 24 {
      assert s == [s[0]] + s[1..];
    } else {
      hide Head;
      var bytes := s[1..1 + Width(info)];
      WideHead(major, info, bytes);
      assert s == [s[0]] + bytes + s[1 + Width(info)..];
    }
  }

  lemma HeadComplete(major: nat, argument: nat, rest: seq<byte>)
    requires major < 8 && argument < U64
    ensures ReadHead(Head(major, argument) + rest) == HeadIs(major, argument, rest)
    ensures (Head(major, argument) + rest)[0] / 32 == major
  {
    hide FromBigEndian, BigEndian, Pow;
    PowersOf256();
    var h := Head(major, argument);
    var s := h + rest;
    if argument >= 24 {
      var width := |h| - 1;
      BigEndianRoundTrip(argument, width);
      assert s[1..1 + width] == h[1..] == BigEndian(argument, width);
      assert s[1 + width..] == rest;
    } else {
      assert s[1..] == rest;
    }
  }

  /** What a token says about the bytes it was read from. */
  ghost predicate TokenOf(t: Token, s: seq<byte>) {
    match t
    case NoToken => true
    case Atom(v, rest) => Atomic(v) && s == Encode(v) + rest
    case ArrayOf(count, rest) => count < U64 && count <= |rest| && s == Head(4, count) + rest
    case MapOf(count, rest) => count < U64 && 2 * count <= |rest| && s == Head(5, count) + rest
    case TagOf(number, rest) => number < U64 && s == Head(6, number) + rest
  }

  lemma SimpleSound(s: seq<byte>)
    requires |s| > 0 && s[0] / 32 == 7
    ensures TokenOf(ReadSimple(s), s)
  {
    hide CanonicalFloat, Head;
    assert s == [s[0]] + s[1..];
    if s[0] % 32 == 27 && |s| >= 9 { assert s == [s[0]] + s[1..9] + s[9..]; }
  }

  lemma TokenSound(s: seq<byte>)
    ensures TokenOf(ReadToken(s), s)
  {
    hide ReadHead, Head, Utf8, ReadSimple, CanonicalFloat;
    if |s| == 0 {
    } else if s[0] / 32 == 7 {
      SimpleSound(s);
    } else if ReadHead(s).HeadIs? {
      HeadSound(s);
      var HeadIs(major, argument, rest) := ReadHead(s);
      if (major == 2 || major == 3) && argument <= |rest| {
        assert rest == rest[..argument] + rest[argument..];
        assert s == Head(major, argument) + rest[..argument] + rest[argument..];
      }
    }
  }

  lemma SimpleComplete(v: Value, rest: seq<byte>)
    requires Atomic(v) && (v.Null? || v.Bool? || v.Float?)
    ensures ReadToken(Encode(v) + rest) == Atom(v, rest)
  {
    hide CanonicalFloat, Head, ReadHead;
    var s := Encode(v) + rest;
    if v.Float? {
      assert s[1..9] == v.bits && s[9..] == rest;
    } else {
      assert s[1..] == rest;
    }
  }

  lemma TokenComplete(v: Value, rest: seq<byte>)
    requires Atomic(v)
    ensures ReadToken(Encode(v) + rest) == Atom(v, rest)
  {
    hide ReadHead, Head, Utf8, ReadSimple, CanonicalFloat;
    var s := Encode(v) + rest;
    match v
    case Int(i) => HeadComplete(if i >= 0 then 0 else 1, Magnitude(i), rest);
    case Bytes(data) =>
      HeadComplete(2, |data|, data + rest);
      assert s == Head(2, |data|) + (data + rest);
    case Text(utf8) =>
      HeadComplete(3, |utf8|, utf8 + rest);
      assert s == Head(3, |utf8|) + (utf8 + rest);
    case _ => SimpleComplete(v, rest);
  }

  lemma TokenCompleteContainer(major: nat, argument: nat, rest: seq<byte>)
    requires 4 <= major <= 6 && argument < U64
    ensures major == 4 && argument <= |rest| ==> ReadToken(Head(4, argument) + rest) == ArrayOf(argument, rest)
    ensures major == 5 && 2 * argument <= |rest| ==> ReadToken(Head(5, argument) + rest) == MapOf(argument, rest)
    ensures major == 6 ==> ReadToken(Head(6, argument) + rest) == TagOf(argument, rest)
  {
    hide ReadHead, Head;
    HeadComplete(major, argument, rest);
  }

  lemma HeadNonEmpty(major: nat, argument: nat)
    requires major < 8 && argument < U64
    ensures |Head(major, argument)| > 0
  {
  }

  lemma EncodeNonEmpty(v: Value, tags: set<nat>)
    requires WellFormed(v, tags)
    ensures |Encode(v)| > 0
  {
    match v
    case Array(items) => HeadNonEmpty(4, |items|);
    case Map(entries) => HeadNonEmpty(5, |entries|);
    case Tag(number, _) => HeadNonEmpty(6, number);
    case Bytes(data) => HeadNonEmpty(2, |data|);
    case Text(utf8) => HeadNonEmpty(3, |utf8|);
    case _ =>
  }

  lemma {:induction false} EncodeAllLength(vs: seq<Value>, tags: set<nat>)
    requires AllWellFormed(vs, tags)
    ensures |EncodeAll(vs)| >= |vs|
  {
    hide Encode, WellFormed;
    if |vs| > 0 {
      EncodeNonEmpty(vs[0], tags);
      EncodeAllLength(vs[1..], tags);
    }
  }

  lemma {:induction false} EncodePairsLength(ps: seq<Pair>, tags: set<nat>)
    requires PairsWellFormed(ps, tags)
    ensures |EncodePairs(ps)| >= 2 * |ps|
  {
    hide Encode, WellFormed;
    if |ps| > 0 {
      EncodeNonEmpty(ps[0].key, tags);
      EncodeNonEmpty(ps[0].value, tags);
      EncodePairsLength(ps[1..], tags);
    }
  }

  // ----- Bignums -----

  lemma BignumSound(number: nat, payload: Value, tags: set<nat>)
    requires WellFormed(payload, tags) && number in tags && (number == 2 || number == 3)
    requires Tagged(number, payload).Ok?
    ensures var v := Tagged(number, payload).value;
            && v.Int? && !Small(v.i) && Minimal(Magnitude(v.i)) == payload.data && WellFormed(v, tags)
            && Encode(v) == [0xc0 + number] + EncodeBytes(payload.data)
  {
    hide FromBigEndian, Minimal, Pow, EncodeBytes;
    MinimalInverse(payload.data);
    PowersOf256();
    PowMonotone(256, 8, |payload.data| - 1);
  }

  /** A tag over a payload is the value the two print as, and that value is well-formed. */
  lemma TaggedSound(number: nat, payload: Value, tags: set<nat>)
    requires WellFormed(payload, tags) && number in tags && number < U64 && Tagged(number, payload).Ok?
    ensures var v := Tagged(number, payload).value;
            && WellFormed(v, tags) && Encode(v) == Head(6, number) + Encode(payload)
            && Depth(v) == 1 + Depth(payload) && Items(v) == 1 + Items(payload)
  {
    hide FromBigEndian, Minimal, Head, EncodeBytes;
    if number == 2 || number == 3 {
      BignumSound(number, payload, tags);
      SmallTagHead(number);
      assert Encode(payload) == EncodeBytes(payload.data);
    }
  }

  lemma SmallTagHead(number: nat)
    requires number < 24
    ensures Head(6, number) == [0xc0 + number]
  {
  }

  lemma WideMinimal(n: nat)
    requires n >= U64
    ensures |Minimal(n)| >= 9 && Minimal(n)[0] != 0 && FromBigEndian(Minimal(n)) == n
  {
    MinimalRoundTrip(n);
    FromBigEndianBound(Minimal(n));
    PowersOf256();
    hide FromBigEndian, Minimal, Pow;
    if |Minimal(n)| <= 8 { PowMonotone(256, |Minimal(n)|, 8); }
  }

  lemma BignumComplete(i: int, tags: set<nat>)
    requires WellFormed(Int(i), tags) && !Small(i)
    ensures var number, payload := if i >= 0 then 2 else 3, Bytes(Minimal(Magnitude(i)));
            && Atomic(payload) && Encode(Int(i)) == Head(6, number) + Encode(payload)
            && Tagged(number, payload) == Ok(Int(i))
            && number in tags && Depth(Int(i)) == 1 && Items(Int(i)) == 2
  {
    hide FromBigEndian, Minimal;
    WideMinimal(Magnitude(i));
    assert Head(6, 2) == [0xc2] && Head(6, 3) == [0xc3];
  }

  // ----- Soundness: what is accepted is the canonical encoding of what is returned -----

  ghost predicate Fits(v: Value, depth: nat, items: nat, c: Config) {
    WellFormed(v, c.tags) && depth + Depth(v) <= c.maxDepth && items + Items(v) <= c.maxItems
  }

  lemma AtomicCost(v: Value, tags: set<nat>)
    requires Atomic(v)
    ensures WellFormed(v, tags) && Depth(v) == 0 && Items(v) == 1
  {
  }

  lemma {:induction false} ParseSound(s: seq<byte>, depth: nat, items: nat, c: Config)
    requires Parse(s, depth, items, c).Good?
    ensures var Good(v, rest, n) := Parse(s, depth, items, c);
            s == Encode(v) + rest && Fits(v, depth, items, c) && n == items + Items(v)
    decreases |s|, 2
  {
    hide ReadToken, Head, Tagged, Atomic, Encode, WellFormed, Depth, Items, ParseMany, ParsePairs;
    match ReadToken(s)
    case NoToken =>
    case Atom(v, _) =>
      TokenSound(s);
      AtomicCost(v, c.tags);
    case ArrayOf(count, rest) => ParseArraySound(s, depth, items, c);
    case MapOf(count, rest) => ParseMapSound(s, depth, items, c);
    case TagOf(number, rest) =>
      TokenSound(s);
      ParseSound(rest, depth + 1, items + 1, c);
      TaggedSound(number, Parse(rest, depth + 1, items + 1, c).value, c.tags);
  }

  lemma {:induction false} ParseArraySound(s: seq<byte>, depth: nat, items: nat, c: Config)
    requires Parse(s, depth, items, c).Good? && ReadToken(s).ArrayOf?
    ensures var Good(v, rest, n) := Parse(s, depth, items, c);
            s == Encode(v) + rest && Fits(v, depth, items, c) && n == items + Items(v)
    decreases |s|, 1
  {
    hide ReadToken, Head, Tagged, Atomic, EncodeAll, AllWellFormed, DepthAll, ItemsAll, ParseMany, ParsePairs;
    TokenSound(s);
    var ArrayOf(count, rest) := ReadToken(s);
    ParseManySound(rest, count, depth + 1, items + 1, c);
    var vs := ParseMany(rest, count, depth + 1, items + 1, c).value;
    assert Encode(Array(vs)) == Head(4, |vs|) + EncodeAll(vs);
  }

  lemma {:induction false} ParseMapSound(s: seq<byte>, depth: nat, items: nat, c: Config)
    requires Parse(s, depth, items, c).Good? && ReadToken(s).MapOf?
    ensures var Good(v, rest, n) := Parse(s, depth, items, c);
            s == Encode(v) + rest && Fits(v, depth, items, c) && n == items + Items(v)
    decreases |s|, 1
  {
    hide ReadToken, Head, Tagged, Atomic, EncodePairs, PairsWellFormed, KeysAscend, DepthPairs, ItemsPairs;
    hide ParseMany, ParsePairs;
    TokenSound(s);
    var MapOf(count, rest) := ReadToken(s);
    ParsePairsSound(rest, count, None, depth + 1, items + 1, c);
    var ps := ParsePairs(rest, count, None, depth + 1, items + 1, c).value;
    assert Encode(Map(ps)) == Head(5, |ps|) + EncodePairs(ps);
  }

  lemma {:induction false} ParseManySound(s: seq<byte>, count: nat, depth: nat, items: nat, c: Config)
    requires ParseMany(s, count, depth, items, c).Good?
    requires depth > 0 && depth - 1 <= c.maxDepth && items <= c.maxItems
    ensures var Good(vs, rest, n) := ParseMany(s, count, depth, items, c);
            && s == EncodeAll(vs) + rest && AllWellFormed(vs, c.tags)
            && depth - 1 + DepthAll(vs) <= c.maxDepth && n == items + ItemsAll(vs) <= c.maxItems
    decreases |s|, 3
  {
    hide Encode, WellFormed, Depth, Items, Parse;
    if count > 0 {
      ParseSound(s, depth, items, c);
      var Good(v, rest, n) := Parse(s, depth, items, c);
      ParseManySound(rest, count - 1, depth, n, c);
      var Good(vs, _, _) := ParseMany(rest, count - 1, depth, n, c);
      assert ([v] + vs)[1..] == vs;
    }
  }

  lemma PairsCons(p: Pair, ps: seq<Pair>, tags: set<nat>)
    ensures EncodePairs([p] + ps) == Encode(p.key) + Encode(p.value) + EncodePairs(ps)
    ensures PairsWellFormed([p] + ps, tags)
       <==> WellFormed(p.key, tags) && WellFormed(p.value, tags) && PairsWellFormed(ps, tags)
    ensures DepthPairs([p] + ps) == Max(1 + Max(Depth(p.key), Depth(p.value)), DepthPairs(ps))
    ensures ItemsPairs([p] + ps) == Items(p.key) + Items(p.value) + ItemsPairs(ps)
    ensures KeysAscend([p] + ps) ==> KeysAscend(ps)
    ensures KeysAscend([p] + ps) <==> (|ps| > 0 ==> LexLess(Encode(p.key), Encode(ps[0].key)) && KeysAscend(ps))
  {
    hide Encode, WellFormed, Depth, Items, LexLess;
    assert ([p] + ps)[1..] == ps;
  }

  lemma NoPairs(s: seq<byte>, tags: set<nat>)
    ensures s == EncodePairs([]) + s && PairsWellFormed([], tags) && KeysAscend([])
    ensures DepthPairs([]) == 0 && ItemsPairs([]) == 0
  {
  }

  lemma {:induction false} ParsePairsSound(
      s: seq<byte>, count: nat, previous: Option<seq<byte>>, depth: nat, items: nat, c: Config)
    requires ParsePairs(s, count, previous, depth, items, c).Good?
    requires depth > 0 && depth - 1 <= c.maxDepth && items <= c.maxItems
    ensures var Good(ps, rest, n) := ParsePairs(s, count, previous, depth, items, c);
            && s == EncodePairs(ps) + rest && PairsWellFormed(ps, c.tags) && KeysAscend(ps)
            && (previous.Some? && |ps| > 0 ==> LexLess(previous.value, Encode(ps[0].key)))
            && depth - 1 + DepthPairs(ps) <= c.maxDepth && n == items + ItemsPairs(ps) <= c.maxItems
    decreases |s|, 3
  {
    hide Encode, WellFormed, Depth, Items, Parse;
    hide LexLess, EncodePairs, PairsWellFormed, KeysAscend, DepthPairs, ItemsPairs;
    if count == 0 {
      NoPairs(s, c.tags);
    } else {
      PairsUnfold(s, count, previous, depth, items, c);
      hide ParsePairs;
      ParseSound(s, depth, items, c);
      var Good(key, rest, n) := Parse(s, depth, items, c);
      var raw := s[..|s| - |rest|];
      assert raw == Encode(key);
      ParseSound(rest, depth, n, c);
      var Good(value, rest', n') := Parse(rest, depth, n, c);
      ParsePairsSound(rest', count - 1, Some(raw), depth, n', c);
      var Good(ps, rest'', _) := ParsePairs(rest', count - 1, Some(raw), depth, n', c);
      PairsCons(Pair(key, value), ps, c.tags);
      PairBytes(s, Encode(key), Encode(value), EncodePairs(ps), rest, rest', rest'');
    }
  }

  lemma PairBytes(
      s: seq<byte>, k: seq<byte>, v: seq<byte>, ps: seq<byte>, rest: seq<byte>, rest': seq<byte>, rest'': seq<byte>)
    requires s == k + rest && rest == v + rest' && rest' == ps + rest''
    ensures s == k + v + ps + rest''
  {
  }

  /** The first pair of a list and the parse of the others. */
  lemma PairsUnfold(s: seq<byte>, count: nat, previous: Option<seq<byte>>, depth: nat, items: nat, c: Config)
    requires ParsePairs(s, count, previous, depth, items, c).Good? && count > 0
    ensures Parse(s, depth, items, c).Good?
    ensures var Good(key, rest, n) := Parse(s, depth, items, c);
      var raw := s[..|s| - |rest|];
      && (previous.Some? ==> LexLess(previous.value, raw))
      && Parse(rest, depth, n, c).Good?
      && var Good(value, rest', n') := Parse(rest, depth, n, c);
         && ParsePairs(rest', count - 1, Some(raw), depth, n', c).Good?
         && var Good(ps, rest'', n'') := ParsePairs(rest', count - 1, Some(raw), depth, n', c);
            ParsePairs(s, count, previous, depth, items, c) == Good([Pair(key, value)] + ps, rest'', n'')
  {
    hide Parse, LexLess;
  }

  // ----- Completeness: a well-formed value within the limits decodes from its encoding -----

  lemma {:induction false} ParseComplete(v: Value, rest: seq<byte>, depth: nat, items: nat, c: Config)
    requires Fits(v, depth, items, c)
    ensures Parse(Encode(v) + rest, depth, items, c) == Good(v, rest, items + Items(v))
    decreases v, 0
  {
    hide ReadToken, Head, Minimal, Utf8, CanonicalFloat, AllWellFormed, PairsWellFormed, KeysAscend;
    hide EncodeAll, EncodePairs, DepthAll, DepthPairs, ItemsAll, ItemsPairs, ParseMany, ParsePairs, EncodeBytes;
    match v
    case Array(vs) => ParseCompleteArray(vs, rest, depth, items, c);
    case Map(ps) => ParseCompleteMap(ps, rest, depth, items, c);
    case Tag(number, value) =>
      TokenCompleteContainer(6, number, Encode(value) + rest);
      assert Encode(v) + rest == Head(6, number) + (Encode(value) + rest);
      ParseComplete(value, rest, depth + 1, items + 1, c);
    case Int(i) =>
      if Small(i) {
        ParseCompleteAtom(v, rest, depth, items, c);
      } else {
        ParseCompleteBignum(i, rest, depth, items, c);
      }
    case _ => ParseCompleteAtom(v, rest, depth, items, c);
  }

  lemma ParseCompleteAtom(v: Value, rest: seq<byte>, depth: nat, items: nat, c: Config)
    requires Atomic(v) && depth <= c.maxDepth && items + 1 <= c.maxItems
    ensures Parse(Encode(v) + rest, depth, items, c) == Good(v, rest, items + Items(v))
  {
    hide ReadToken, Head, Atomic, Encode;
    TokenComplete(v, rest);
    AtomicCost(v, c.tags);
  }

  lemma ParseCompleteTagged(
      number: nat, payload: Value, v: Value, rest: seq<byte>, depth: nat, items: nat, n: nat, c: Config)
    requires number < U64 && number in c.tags && Tagged(number, payload) == Ok(v)
    requires depth <= c.maxDepth && items + 1 <= c.maxItems
    requires Parse(Encode(payload) + rest, depth + 1, items + 1, c) == Good(payload, rest, n)
    requires Encode(v) == Head(6, number) + Encode(payload)
    ensures Parse(Encode(v) + rest, depth, items, c) == Good(v, rest, n)
  {
    hide ReadToken, Head, Tagged, Encode, ParseMany, ParsePairs;
    TokenCompleteContainer(6, number, Encode(payload) + rest);
    assert Encode(v) + rest == Head(6, number) + (Encode(payload) + rest);
  }

  lemma ParseCompleteBignum(i: int, rest: seq<byte>, depth: nat, items: nat, c: Config)
    requires Fits(Int(i), depth, items, c) && !Small(i)
    ensures Parse(Encode(Int(i)) + rest, depth, items, c) == Good(Int(i), rest, items + 2)
  {
    hide Head, Tagged, Minimal, Atomic, Encode, Depth, Items, Parse;
    BignumComplete(i, c.tags);
    var number, payload := if i >= 0 then 2 else 3, Bytes(Minimal(Magnitude(i)));
    ParseCompleteAtom(payload, rest, depth + 1, items + 1, c);
    AtomicCost(payload, c.tags);
    ParseCompleteTagged(number, payload, Int(i), rest, depth, items, items + 2, c);
  }

  lemma {:induction false} ParseCompleteArray(vs: seq<Value>, rest: seq<byte>, depth: nat, items: nat, c: Config)
    requires Fits(Array(vs), depth, items, c)
    ensures Parse(Encode(Array(vs)) + rest, depth, items, c) == Good(Array(vs), rest, items + Items(Array(vs)))
    decreases vs, 1
  {
    hide ReadToken, Head, Atomic, EncodeAll, AllWellFormed, DepthAll, ItemsAll, ParseMany;
    EncodeAllLength(vs, c.tags);
    TokenCompleteContainer(4, |vs|, EncodeAll(vs) + rest);
    assert Encode(Array(vs)) + rest == Head(4, |vs|) + (EncodeAll(vs) + rest);
    ParseManyComplete(vs, rest, depth + 1, items + 1, c);
  }

  lemma {:induction false} ParseCompleteMap(ps: seq<Pair>, rest: seq<byte>, depth: nat, items: nat, c: Config)
    requires Fits(Map(ps), depth, items, c)
    ensures Parse(Encode(Map(ps)) + rest, depth, items, c) == Good(Map(ps), rest, items + Items(Map(ps)))
    decreases ps, 1
  {
    hide ReadToken, Head, Atomic, EncodePairs, PairsWellFormed, DepthPairs, ItemsPairs, ParsePairs, KeysAscend;
    EncodePairsLength(ps, c.tags);
    TokenCompleteContainer(5, |ps|, EncodePairs(ps) + rest);
    assert Encode(Map(ps)) + rest == Head(5, |ps|) + (EncodePairs(ps) + rest);
    ParsePairsComplete(ps, rest, None, depth + 1, items + 1, c);
  }

  lemma {:induction false} ParseManyComplete(vs: seq<Value>, rest: seq<byte>, depth: nat, items: nat, c: Config)
    requires AllWellFormed(vs, c.tags)
    requires depth > 0 && depth - 1 + DepthAll(vs) <= c.maxDepth && items + ItemsAll(vs) <= c.maxItems
    ensures ParseMany(EncodeAll(vs) + rest, |vs|, depth, items, c) == Good(vs, rest, items + ItemsAll(vs))
    decreases vs, 0
  {
    hide Encode, WellFormed, Depth, Items, Parse;
    if |vs| > 0 {
      assert EncodeAll(vs) + rest == Encode(vs[0]) + (EncodeAll(vs[1..]) + rest);
      ParseComplete(vs[0], EncodeAll(vs[1..]) + rest, depth, items, c);
      ParseManyComplete(vs[1..], rest, depth, items + Items(vs[0]), c);
      assert [vs[0]] + vs[1..] == vs;
    } else {
      assert EncodeAll(vs) + rest == rest;
    }
  }

  lemma {:induction false} ParsePairsComplete(
      ps: seq<Pair>, rest: seq<byte>, previous: Option<seq<byte>>, depth: nat, items: nat, c: Config)
    requires PairsWellFormed(ps, c.tags) && KeysAscend(ps)
    requires previous.Some? && |ps| > 0 ==> LexLess(previous.value, Encode(ps[0].key))
    requires depth > 0 && depth - 1 + DepthPairs(ps) <= c.maxDepth && items + ItemsPairs(ps) <= c.maxItems
    ensures ParsePairs(EncodePairs(ps) + rest, |ps|, previous, depth, items, c)
         == Good(ps, rest, items + ItemsPairs(ps))
    decreases ps, 0
  {
    hide Encode, WellFormed, Depth, Items, Parse;
    hide LexLess, EncodePairs, PairsWellFormed, KeysAscend, DepthPairs, ItemsPairs;
    var s := EncodePairs(ps) + rest;
    if |ps| > 0 {
      assert (ps decreases to ps[0]);
      match ps[0]
      case Pair(key, value) =>
        PairsCons(ps[0], ps[1..], c.tags);
        assert [ps[0]] + ps[1..] == ps;
        var tail := EncodePairs(ps[1..]) + rest;
        assert s == Encode(key) + (Encode(value) + tail);
        ParseComplete(key, Encode(value) + tail, depth, items, c);
        assert s[..|s| - |Encode(value) + tail|] == Encode(key);
        ParseComplete(value, tail, depth, items + Items(key), c);
        ParsePairsComplete(ps[1..], rest, Some(Encode(key)), depth, items + Items(key) + Items(value), c);
    } else {
      PairsEmpty();
      assert s == rest;
    }
  }

  lemma PairsEmpty()
    ensures EncodePairs([]) == [] && ItemsPairs([]) == 0
  {
  }

  // ----- The codec laws -----

  /**
   * The decoder accepts exactly the canonical encodings of the well-formed values within its
   * limits, and returns the value that was encoded.
   */
  lemma DecodeExact(data: seq<byte>, v: Value, c: Config)
    ensures Decode(data, c) == Ok(v) <==> data == Encode(v) && Fits(v, 0, 0, c)
  {
    if Decode(data, c) == Ok(v) {
      ParseSound(data, 0, 0, c);
    }
    if data == Encode(v) && Fits(v, 0, 0, c) {
      ParseComplete(v, [], 0, 0, c);
      assert data + [] == data;
    }
  }

  /** Accepted bytes determine the value and the value determines the bytes. */
  lemma DecodeInjective(a: seq<byte>, b: seq<byte>, c: Config)
    requires Decode(a, c).Ok? && Decode(b, c) == Decode(a, c)
    ensures a == b
  {
    DecodeExact(a, Decode(a, c).value, c);
    DecodeExact(b, Decode(a, c).value, c);
  }

  /** No encoding of a well-formed value is a proper prefix of another, at any depth or size. */
  lemma PrefixFree(v: Value, w: Value, x: seq<byte>, y: seq<byte>, tags: set<nat>)
    requires WellFormed(v, tags) && WellFormed(w, tags)
    requires Encode(v) + x == Encode(w) + y
    ensures v == w && x == y
  {
    var c := Config(tags, Max(Depth(v), Depth(w)), Max(Items(v), Items(w)));
    ParseComplete(v, x, 0, 0, c);
    ParseComplete(w, y, 0, 0, c);
  }

  lemma EncodeInjective(v: Value, w: Value, tags: set<nat>)
    requires WellFormed(v, tags) && WellFormed(w, tags)
    requires Encode(v) == Encode(w)
    ensures v == w
  {
    PrefixFree(v, w, [], [], tags);
  }
}
