/**
 * `URLSearchParams` as utils/share.ts uses it on a URL's query and on its
 * fragment: a list of name/value pairs parsed from `a=1&b=2` text, read
 * with `get`, edited with `set` and `delete`, and serialised back. Names
 * and values are kept in their percent-encoded form (the values the core
 * writes are base64url and alphanumeric text, which the encoding leaves
 * unchanged), so the form-urlencoded escaping itself is not modelled.
 */
module UrlParams {
  import opened Wrappers
  import opened Text

  const Amp: CodeUnit := 38
  const EqualsSign: CodeUnit := 61
  const QuestionMark: CodeUnit := 63

  datatype Param = Param(name: String, value: String)

  /** A pair that survives serialisation: no `&` anywhere and no `=` in the name. */
  predicate Serialisable(p: Param) {
    Amp !in p.name && EqualsSign !in p.name && Amp !in p.value
  }

  predicate AllSerialisable(ps: seq<Param>) {
    forall k | 0 <= k < |ps| :: Serialisable(ps[k])
  }

  /** One `&`-separated piece: the name runs to the first `=`, the value is the rest (empty without `=`). */
  function ParsePair(piece: String): (p: Param)
    ensures EqualsSign !in p.name
    ensures Amp !in piece ==> Serialisable(p)
  {
    var i := IndexOf(piece, EqualsSign);
    if i == |piece| then Param(piece, []) else Param(piece[..i], piece[i + 1..])
  }

  /** The pieces in order, empty ones skipped. */
  function ParsePieces(pieces: seq<String>): (ps: seq<Param>)
    requires forall k | 0 <= k < |pieces| :: Amp !in pieces[k]
    ensures |ps| <= |pieces|
    ensures AllSerialisable(ps)
  {
    if |pieces| == 0 then []
    else if pieces[0] == [] then ParsePieces(pieces[1..])
    else [ParsePair(pieces[0])] + ParsePieces(pieces[1..])
  }

  /** `new URLSearchParams(text)`. */
  function Parse(text: String): (ps: seq<Param>)
    ensures AllSerialisable(ps)
  {
    ParsePieces(Split(text, Amp))
  }

  /**
   * `new URLSearchParams(text)` on a string argument: a single leading `?`
   * is skipped (the WHATWG URL Standard's `URLSearchParams` constructor)
   * and the rest is parsed as by `Parse`.
   */
  function ParseInit(text: String): (ps: seq<Param>)
    ensures AllSerialisable(ps)
    ensures text == [] || text[0] != QuestionMark ==> ps == Parse(text)
    ensures text != [] && text[0] == QuestionMark ==> ps == Parse(text[1..])
  {
    if text != [] && text[0] == QuestionMark then Parse(text[1..]) else Parse(text)
  }

  /** Only the first `?` is skipped: `??a=1` keeps a pair named `?a`. */
  lemma ParseInitSkipsOnce(text: String)
    ensures ParseInit([QuestionMark] + text) == Parse(text)
  {
    assert ([QuestionMark] + text)[1..] == text;
  }

  function SerializePair(p: Param): String {
    p.name + [EqualsSign] + p.value
  }

  /** `params.toString()`: `name=value` pairs joined by `&`; no pairs give the empty string. */
  function Serialize(ps: seq<Param>): (text: String)
    ensures text == [] <==> ps == []
  {
    if |ps| == 0 then []
    else if |ps| == 1 then SerializePair(ps[0])
    else SerializePair(ps[0]) + [Amp] + Serialize(ps[1..])
  }

  /** `params.get(name)`: the value of the first pair with that name. */
  function Get(ps: seq<Param>, name: String): (r: Option<String>)
    ensures r.None? <==> forall k | 0 <= k < |ps| :: ps[k].name != name
  {
    if |ps| == 0 then None
    else if ps[0].name == name then Some(ps[0].value)
    else Get(ps[1..], name)
  }

  /** `params.delete(name)`: every pair with that name goes; the others keep their order. */
  function Delete(ps: seq<Param>, name: String): (r: seq<Param>)
    ensures |r| <= |ps|
    ensures forall k | 0 <= k < |r| :: r[k].name != name && r[k] in ps
    ensures AllSerialisable(ps) ==> AllSerialisable(r)
  {
    if |ps| == 0 then []
    else if ps[0].name == name then Delete(ps[1..], name)
    else [ps[0]] + Delete(ps[1..], name)
  }

  /** `params.set(name, value)`: the first pair with that name takes the value and the rest go; otherwise the pair is appended. */
  function Set(ps: seq<Param>, name: String, value: String): (r: seq<Param>)
  {
    if |ps| == 0 then [Param(name, value)]
    else if ps[0].name == name then [Param(name, value)] + Delete(ps[1..], name)
    else [ps[0]] + Set(ps[1..], name, value)
  }

  /** After `set`, `get` returns the new value, and exactly one pair carries the name. */
  lemma {:induction false} GetAfterSet(ps: seq<Param>, name: String, value: String)
    ensures Get(Set(ps, name, value), name) == Some(value)
    ensures Delete(Set(ps, name, value), name) == Delete(ps, name)
  {
    if |ps| > 0 && ps[0].name != name {
      GetAfterSet(ps[1..], name, value);
    } else if |ps| > 0 {
      DeleteIdempotent(ps[1..], name);
    }
  }

  lemma {:induction false} DeleteIdempotent(ps: seq<Param>, name: String)
    ensures Delete(Delete(ps, name), name) == Delete(ps, name)
  {
    if |ps| > 0 {
      DeleteIdempotent(ps[1..], name);
    }
  }

  /** Deleting one name leaves the lookup of every other name unchanged. */
  lemma {:induction false} GetAfterDelete(ps: seq<Param>, name: String, other: String)
    ensures Get(Delete(ps, name), name) == None
    ensures other != name ==> Get(Delete(ps, name), other) == Get(ps, other)
  {
    if |ps| > 0 {
      GetAfterDelete(ps[1..], name, other);
    }
  }

  /** A deleted name's pairs are counted out; nothing else is lost. */
  lemma {:induction false} DeleteCount(ps: seq<Param>, name: String)
    ensures |Delete(ps, name)| + Count(ps, name) == |ps|
  {
    if |ps| > 0 {
      DeleteCount(ps[1..], name);
    }
  }

  function Count(ps: seq<Param>, name: String): nat {
    if |ps| == 0 then 0 else (if ps[0].name == name then 1 else 0) + Count(ps[1..], name)
  }

  /** The pieces a non-empty serialisation splits into. */
  function Pieces(ps: seq<Param>): (pieces: seq<String>)
    ensures |pieces| == |ps|
    ensures forall k | 0 <= k < |ps| :: pieces[k] == SerializePair(ps[k])
  {
    if |ps| == 0 then [] else [SerializePair(ps[0])] + Pieces(ps[1..])
  }

  lemma {:induction false} SerializeIsJoin(ps: seq<Param>)
    requires |ps| >= 1
    ensures Serialize(ps) == Join(Pieces(ps), Amp)
  {
    if |ps| > 1 {
      SerializeIsJoin(ps[1..]);
      assert Pieces(ps)[1..] == Pieces(ps[1..]);
    }
  }

  /** A serialisable pair's text is one non-empty piece that parses back to the pair. */
  lemma ParsePairOfSerialized(p: Param)
    requires Serialisable(p)
    ensures SerializePair(p) != [] && Amp !in SerializePair(p)
    ensures ParsePair(SerializePair(p)) == p
  {
    var s := SerializePair(p);
    assert s[|p.name|] == EqualsSign;
    IndexOfFirst(s, EqualsSign, |p.name|);
    assert s[..|p.name|] == p.name;
    assert s[|p.name| + 1..] == p.value;
  }

  lemma ParsePiecesCons(x: String, rest: seq<String>)
    requires x != [] && Amp !in x
    requires forall k | 0 <= k < |rest| :: Amp !in rest[k]
    ensures ParsePieces([x] + rest) == [ParsePair(x)] + ParsePieces(rest)
  {
    assert ([x] + rest)[1..] == rest;
  }

  lemma {:induction false} ParsePiecesOfPieces(ps: seq<Param>)
    requires AllSerialisable(ps)
    ensures forall k | 0 <= k < |ps| :: Amp !in Pieces(ps)[k]
    ensures ParsePieces(Pieces(ps)) == ps
  {
    if |ps| > 0 {
      ParsePiecesOfPieces(ps[1..]);
      ParsePairOfSerialized(ps[0]);
      assert Pieces(ps) == [SerializePair(ps[0])] + Pieces(ps[1..]);
      ParsePiecesCons(SerializePair(ps[0]), Pieces(ps[1..]));
      assert ps == [ps[0]] + ps[1..];
    }
  }

  /** Serialising and re-parsing gives back every serialisable pair list, in order. */
  lemma ParseSerialize(ps: seq<Param>)
    requires AllSerialisable(ps)
    ensures Parse(Serialize(ps)) == ps
  {
    if |ps| == 0 {
      assert Split([], Amp) == [[]];
    } else {
      SerializeIsJoin(ps);
      ParsePiecesOfPieces(ps);
      SplitJoin(Pieces(ps), Amp);
    }
  }

  /** A query written with a single `set` reads back the value under that name. */
  lemma ReadSingleParam(name: String, value: String)
    requires Serialisable(Param(name, value))
    ensures Serialize(Set([], name, value)) != []
    ensures Get(Parse(Serialize(Set([], name, value))), name) == Some(value)
  {
    assert Set([], name, value) == [Param(name, value)];
    ParseSerialize([Param(name, value)]);
  }

  /** The serialised text begins with the first pair's name, or with `=` when that name is empty. */
  lemma SerializeFirst(ps: seq<Param>)
    requires ps != []
    ensures Serialize(ps) != []
    ensures Serialize(ps)[0] == if ps[0].name == [] then EqualsSign else ps[0].name[0]
  {
    assert Serialize(ps)[0] == SerializePair(ps[0])[0];
  }

  /** Text written by `toString` reads back through the constructor unless its first name starts with `?`. */
  lemma ParseInitSerialize(ps: seq<Param>)
    requires AllSerialisable(ps)
    requires ps == [] || ps[0].name == [] || ps[0].name[0] != QuestionMark
    ensures ParseInit(Serialize(ps)) == ps
  {
    if ps != [] {
      SerializeFirst(ps);
    }
    ParseSerialize(ps);
  }

  /** `delete` works pair by pair: it distributes over concatenation. */
  lemma {:induction false} DeleteAppend(a: seq<Param>, b: seq<Param>, name: String)
    ensures Delete(a + b, name) == Delete(a, name) + Delete(b, name)
  {
    if |a| > 0 {
      assert (a + b)[1..] == a[1..] + b;
      DeleteAppend(a[1..], b, name);
    } else {
      assert a + b == b;
    }
  }

  /** A single pair is dropped exactly when it carries the name. */
  lemma DeleteSingleton(p: Param, name: String)
    ensures Delete([p], name) == if p.name == name then [] else [p]
  {
  }

  /** Re-serialising parsed text is a normal form: parsing it again gives the same pairs. */
  lemma ParseNormalForm(text: String)
    ensures Parse(Serialize(Parse(text))) == Parse(text)
  {
    ParseSerialize(Parse(text));
  }
}
