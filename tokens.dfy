/**
 * The token string `uuid + "_" + id` and the way checkToken takes it apart with
 * `split("_")` followed by reading elements 0 and 1.
 */
module Tokens {
  import opened Wrappers

  const Separator: char := '_'

  /** The pieces of `s` between separators, as `String.prototype.split` with a
      one-character separator returns them: never empty, a single piece exactly when
      there is no separator, and no piece contains the separator. */
  function Split(s: string): (parts: seq<string>)
    ensures |parts| >= 1
    ensures |parts| == 1 <==> Separator !in s
    ensures forall i :: 0 <= i < |parts| ==> Separator !in parts[i]
    decreases |s|
  {
    if s == [] then [[]]
    else
      var rest := Split(s[1..]);
      assert s == [s[0]] + s[1..];
      if s[0] == Separator then [[]] + rest
      else [[s[0]] + rest[0]] + rest[1..]
  }

  /** The inverse of `Split`: the pieces glued back together with the separator. */
  function Join(parts: seq<string>): (s: string)
    requires |parts| >= 1
  {
    if |parts| == 1 then parts[0] else parts[0] + [Separator] + Join(parts[1..])
  }

  /** The token login hands out: the record's uuid, the separator, the minted id. */
  function Compose(uuid: string, id: string): (token: string) {
    uuid + [Separator] + id
  }

  /** `array[0]` after `split("_")`: always defined. */
  function UuidPart(token: string): (uuid: string) {
    Split(token)[0]
  }

  /** `array[1]` after `split("_")`: undefined when the token has no separator. */
  function IdPart(token: string): (r: Option<string>)
    ensures r.None? <==> Separator !in token
  {
    var parts := Split(token);
    if |parts| > 1 then Some(parts[1]) else None
  }

  lemma {:induction false} SplitNoSeparator(s: string)
    requires Separator !in s
    ensures Split(s) == [s]
  {
    if s != [] {
      assert s == [s[0]] + s[1..];
      SplitNoSeparator(s[1..]);
    }
  }

  /** Splitting a separator-free piece followed by the separator peels that piece off. */
  lemma {:induction false} SplitPrefix(p: string, t: string)
    requires Separator !in p
    ensures Split(p + [Separator] + t) == [p] + Split(t)
  {
    var s := p + [Separator] + t;
    if p == [] {
      assert s[1..] == t;
    } else {
      assert s[1..] == p[1..] + [Separator] + t;
      SplitPrefix(p[1..], t);
      assert [p[0]] + p[1..] == p;
    }
  }

  /** Joining the pieces of a split gives the string back. */
  lemma {:induction false} JoinSplit(s: string)
    ensures Join(Split(s)) == s
    decreases |s|
  {
    if s != [] {
      var rest := Split(s[1..]);
      JoinSplit(s[1..]);
      assert s == [s[0]] + s[1..];
      if s[0] != Separator {
        var parts := [[s[0]] + rest[0]] + rest[1..];
        assert parts[1..] == rest[1..];
        if |rest| > 1 {
          assert Join(rest) == rest[0] + [Separator] + Join(rest[1..]);
        }
      } else {
        assert ([[]] + rest)[1..] == rest;
      }
    }
  }

  /** Splitting joined separator-free pieces gives the pieces back. */
  lemma {:induction false} SplitJoin(parts: seq<string>)
    requires |parts| >= 1
    requires forall i :: 0 <= i < |parts| ==> Separator !in parts[i]
    ensures Split(Join(parts)) == parts
  {
    if |parts| == 1 {
      SplitNoSeparator(parts[0]);
    } else {
      SplitJoin(parts[1..]);
      SplitPrefix(parts[0], Join(parts[1..]));
      assert [parts[0]] + parts[1..] == parts;
    }
  }

  /** checkToken recovers exactly the uuid and the id login glued together, provided
      neither contains the separator. */
  lemma ComposeParts(uuid: string, id: string)
    requires Separator !in uuid && Separator !in id
    ensures UuidPart(Compose(uuid, id)) == uuid
    ensures IdPart(Compose(uuid, id)) == Some(id)
  {
    SplitPrefix(uuid, id);
    SplitNoSeparator(id);
  }

  /** Nothing rejects a token with more than one separator: whatever follows the second
      separator is ignored. */
  lemma TrailingSegmentsIgnored(uuid: string, id: string, rest: string)
    requires Separator !in uuid && Separator !in id
    ensures UuidPart(Compose(uuid, id) + [Separator] + rest) == uuid
    ensures IdPart(Compose(uuid, id) + [Separator] + rest) == Some(id)
  {
    var token := Compose(uuid, id) + [Separator] + rest;
    assert token == uuid + [Separator] + (id + [Separator] + rest);
    SplitPrefix(uuid, id + [Separator] + rest);
    SplitPrefix(id, rest);
  }
}
