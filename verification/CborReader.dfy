/**
 The stateful reader of `scripts/orna_extract.py`: a position and an item count that advance
 while items are taken. Every method is proved against the recursive description in `Cbor`.
 */
module CborReader {
  import opened Prelude
  import opened Cbor

  /** A list parse continued from items already read. */
  ghost function Prepend<T>(done: seq<T>, p: Parsed<seq<T>>): Parsed<seq<T>> {
    match p
    case Bad => Bad
    case Good(vs, rest, n) => Good(done + vs, rest, n)
  }

  ghost function PairsFrom(
      done: seq<Pair>, s: seq<byte>, left: nat, previous: Option<seq<byte>>, depth: nat, items: nat, c: Config)
    : Parsed<seq<Pair>>
  {
    Prepend(done, ParsePairs(s, left, previous, depth, items, c))
  }

  class Reader {
    const data: seq<byte>
    const config: Config
    var position: nat
    var items: nat

    constructor (data: seq<byte>, config: Config)
      ensures this.data == data && this.config == config && position == 0 && items == 0
      ensures Valid()
    {
      this.data, this.config := data, config;
      position, items := 0, 0;
    }

    ghost predicate Valid()
      reads this
    {
      position <= |data|
    }

    ghost function Rest(): seq<byte>
      requires Valid()
      reads this
    {
      data[position..]
    }

    /** The outcome and the new state are those of a recursive parse. */
    ghost predicate Agrees<T(!new)>(r: Result<T>, p: Parsed<T>)
      requires Valid()
      reads this
    {
      match p
      case Bad => r.Err?
      case Good(v, rest, n) => r == Ok(v) && Rest() == rest && items == n
    }

    method Take(count: nat) returns (r: Result<seq<byte>>)
      requires Valid()
      modifies this`position
      ensures Valid() && position >= old(position)
      ensures r.Ok? <==> count <= |old(Rest())|
      ensures r.Ok? ==> r.value == old(Rest())[..count] && Rest() == old(Rest())[count..]
      ensures r.Err? ==> position == old(position)
    {
      var end := position + count;
      if end > |data| { return Err; }
      r := Ok(data[position..end]);
      assert data[end..] == data[position..][count..];
      position := end;
    }

    /** Major type 7: the simple values and binary64. */
    method Simple(info: nat) returns (t: Token)
      requires Valid() && 0 < position && data[position - 1] == 224 + info && info < 32
      modifies this`position
      ensures Valid() && position >= old(position)
      ensures t == ReadSimple(data[old(position) - 1..])
      ensures !t.NoToken? ==> Rest() == t.rest
    {
      hide CanonicalFloat;
      ghost var s := data[position - 1..];
      assert s[1..] == Rest();
      if info == 20 { return Atom(Bool(false), data[position..]); }
      if info == 21 { return Atom(Bool(true), data[position..]); }
      if info == 22 { return Atom(Null, data[position..]); }
      if info != 27 { return NoToken; }
      var bits := Take(8);
      if bits.Err? { return NoToken; }
      assert bits.value == s[1..9] && s[9..] == Rest();
      if !CanonicalFloat(bits.value) { return NoToken; }
      t := Atom(Float(bits.value), data[position..]);
    }

    /** The argument of a head whose initial byte has been taken. */
    method Argument(info: nat) returns (r: Result<nat>)
      requires Valid() && 0 < position && data[position - 1] % 32 == info < 32
      modifies this`position
      ensures Valid() && position >= old(position)
      ensures var h := ReadHead(data[old(position) - 1..]);
              if r.Err? then h.NoHead?
              else h == HeadIs(data[old(position) - 1] / 32, r.value, Rest())
    {
      hide FromBigEndian;
      ghost var s := data[position - 1..];
      assert s[1..] == Rest() && s[0] == data[position - 1];
      if info < 24 { return Ok(info); }
      if info > 27 { return Err; }
      var width := Width(info);
      var bytes := Take(width);
      if bytes.Err? { return Err; }
      assert bytes.value == s[1..1 + width] && Rest() == s[1 + width..];
      var argument := FromBigEndian(bytes.value);
      if argument < ShortestFor(width) { return Err; }
      r := Ok(argument);
    }

    /** One head together with the content it delimits itself. */
    method NextToken() returns (t: Token)
      requires Valid()
      modifies this`position
      ensures Valid() && position >= old(position)
      ensures t == ReadToken(old(Rest()))
      ensures !t.NoToken? ==> Rest() == t.rest && position > old(position)
    {
      hide ReadHead, Utf8, CanonicalFloat, ReadSimple;
      ghost var s := Rest();
      var initial := Take(1);
      if initial.Err? { return NoToken; }
      var major, info := initial.value[0] / 32, initial.value[0] % 32;
      assert data[position - 1..] == s;
      if major == 7 {
        t := Simple(info);
        return;
      }
      var argument := Argument(info);
      if argument.Err? { return NoToken; }
      if major == 0 { return Atom(Int(argument.value), data[position..]); }
      if major == 1 { return Atom(Int(-1 - argument.value), data[position..]); }
      if major == 2 || major == 3 {
        var content := Take(argument.value);
        if content.Err? || (major == 3 && !Utf8(content.value)) { return NoToken; }
        return Atom(if major == 2 then Bytes(content.value) else Text(content.value), data[position..]);
      }
      var left := |data| - position;
      if major == 4 { return if argument.value > left then NoToken else ArrayOf(argument.value, data[position..]); }
      if major == 5 { return if 2 * argument.value > left then NoToken else MapOf(argument.value, data[position..]); }
      return TagOf(argument.value, data[position..]);
    }

    method Item(depth: nat) returns (r: Result<Value>)
      requires Valid()
      modifies this
      ensures Valid() && position >= old(position)
      ensures Agrees(r, Parse(old(Rest()), depth, old(items), config))
      ensures r.Ok? ==> position > old(position)
      decreases |data| - position, 0
    {
      hide ReadToken, Tagged, ParseMany, ParsePairs;
      if depth > config.maxDepth { return Err; }
      items := items + 1;
      if items > config.maxItems { return Err; }
      var token := NextToken();
      match token
      case NoToken => r := Err;
      case Atom(v, _) => r := Ok(v);
      case ArrayOf(count, _) =>
        var vs := Elements(count, depth + 1);
        r := if vs.Err? then Err else Ok(Array(vs.value));
      case MapOf(count, _) =>
        var ps := Entries(count, depth + 1);
        r := if ps.Err? then Err else Ok(Map(ps.value));
      case TagOf(number, _) =>
        if number !in config.tags { return Err; }
        var payload := Item(depth + 1);
        if payload.Err? { return Err; }
        r := Tagged(number, payload.value);
    }

    method Elements(count: nat, depth: nat) returns (r: Result<seq<Value>>)
      requires Valid()
      modifies this
      ensures Valid() && position >= old(position)
      ensures Agrees(r, ParseMany(old(Rest()), count, depth, old(items), config))
      decreases |data| - position, 1
    {
      hide Parse;
      ghost var goal := ParseMany(Rest(), count, depth, items, config);
      var vs: seq<Value> := [];
      assert goal.Good? ==> vs + goal.value == goal.value;
      while |vs| < count
        invariant Valid() && position >= old(position) && |vs| <= count
        invariant goal == Prepend(vs, ParseMany(Rest(), count - |vs|, depth, items, config))
        decreases count - |vs|
      {
        ghost var before := Parse(Rest(), depth, items, config);
        var v := Item(depth);
        if v.Err? { return Err; }
        assert before == Good(v.value, Rest(), items);
        ghost var after := ParseMany(Rest(), count - |vs| - 1, depth, items, config);
        if after.Good? { assert vs + ([v.value] + after.value) == vs + [v.value] + after.value; }
        vs := vs + [v.value];
      }
      assert vs + [] == vs;
      r := Ok(vs);
    }

    method Entries(count: nat, depth: nat) returns (r: Result<seq<Pair>>)
      requires Valid()
      modifies this
      ensures Valid() && position >= old(position)
      ensures Agrees(r, ParsePairs(old(Rest()), count, None, depth, old(items), config))
      decreases |data| - position, 1
    {
      hide Parse, LexLess;
      ghost var goal := ParsePairs(Rest(), count, None, depth, items, config);
      var ps: seq<Pair> := [];
      assert goal.Good? ==> ps + goal.value == goal.value;
      var previous: Option<seq<byte>> := None;
      while |ps| < count
        invariant Valid() && position >= old(position) && |ps| <= count
        invariant goal == PairsFrom(ps, Rest(), count - |ps|, previous, depth, items, config)
        decreases count - |ps|
      {
        ghost var s := Rest();
        ghost var whole := ParsePairs(s, count - |ps|, previous, depth, items, config);
        var start := position;
        var key := Item(depth);
        if key.Err? { return Err; }
        var raw := data[start..position];
        assert raw == s[..|s| - |Rest()|];
        if previous.Some? && !LexLess(previous.value, raw) {
          assert whole == Bad;
          return Err;
        }
        var value := Item(depth);
        if value.Err? {
          assert whole == Bad;
          return Err;
        }
        var p := Pair(key.value, value.value);
        ghost var after := ParsePairs(Rest(), count - |ps| - 1, Some(raw), depth, items, config);
        assert whole == Prepend([p], after);
        if after.Good? { assert ps + ([p] + after.value) == ps + [p] + after.value; }
        ps, previous := ps + [p], Some(raw);
      }
      assert ps + [] == ps;
      r := Ok(ps);
    }
  }

  /** decode_canonical */
  method DecodeCanonical(data: seq<byte>, config: Config) returns (r: Result<Value>)
    ensures r == Decode(data, config)
    ensures forall v :: r == Ok(v) <==> data == Encode(v) && Fits(v, 0, 0, config)
  {
    hide Parse, Encode, WellFormed, Depth, Items;
    var reader := new Reader(data, config);
    assert reader.Rest() == data;
    var item := reader.Item(0);
    if item.Ok? && reader.position == |data| {
      r := item;
    } else {
      r := Err;
    }
    forall v ensures r == Ok(v) <==> data == Encode(v) && Fits(v, 0, 0, config) {
      DecodeExact(data, v, config);
    }
  }
}
