/** Concatenated encodings of a list of records, written one after another
    with no separator, and the reader that takes a known number of them back. */
module Sequence {
  import opened Common

  /** The bytes of every element of `xs`, in order. */
  function Flatten<T>(xs: seq<T>, enc: T -> seq<Byte>): seq<Byte>
  {
    if xs == [] then [] else enc(xs[0]) + Flatten(xs[1..], enc)
  }

  /** Appending one element appends its encoding: what an `output += enc(x)`
      loop relies on. */
  lemma {:induction false} FlattenSnoc<T>(xs: seq<T>, x: T, enc: T -> seq<Byte>)
    ensures Flatten(xs + [x], enc) == Flatten(xs, enc) + enc(x)
  {
    if xs == [] {
      assert [x][1..] == [];
    } else {
      assert (xs + [x])[1..] == xs[1..] + [x];
      FlattenSnoc(xs[1..], x, enc);
    }
  }

  /** Reads `n` records with `read`, one after another. */
  function ReadMany<T>(n: nat, bs: seq<Byte>, read: seq<Byte> -> Option<(T, seq<Byte>)>): (r: Option<(seq<T>, seq<Byte>)>)
    ensures r.Some? ==> |r.value.0| == n
  {
    if n == 0 then Some(([], bs))
    else match read(bs)
      case None => None
      case Some((x, tail)) =>
        match ReadMany(n - 1, tail, read)
        case None => None
        case Some((xs, rest)) => Some(([x] + xs, rest))
  }

  /** `read` undoes `enc` on `x`, whatever follows it. */
  ghost predicate Undoes<T>(read: seq<Byte> -> Option<(T, seq<Byte>)>, enc: T -> seq<Byte>, x: T)
  {
    forall rest :: read(enc(x) + rest) == Some((x, rest))
  }

  /** Reading back `|xs|` records from their concatenation returns `xs` and
      leaves what followed untouched. */
  lemma {:induction false} ReadManyFlatten<T>(xs: seq<T>, rest: seq<Byte>,
                                              read: seq<Byte> -> Option<(T, seq<Byte>)>, enc: T -> seq<Byte>)
    requires forall i :: 0 <= i < |xs| ==> Undoes(read, enc, xs[i])
    ensures ReadMany(|xs|, Flatten(xs, enc) + rest, read) == Some((xs, rest))
  {
    if xs == [] {
      assert Flatten(xs, enc) + rest == rest;
    } else {
      var tail := Flatten(xs[1..], enc) + rest;
      calc {
        Flatten(xs, enc) + rest;
        enc(xs[0]) + Flatten(xs[1..], enc) + rest;
        enc(xs[0]) + tail;
      }
      assert Undoes(read, enc, xs[0]);
      assert read(enc(xs[0]) + tail) == Some((xs[0], tail));
      forall i | 0 <= i < |xs[1..]|
        ensures Undoes(read, enc, xs[1..][i])
      {
        assert xs[1..][i] == xs[i + 1];
      }
      ReadManyFlatten(xs[1..], rest, read, enc);
      assert ReadMany(|xs| - 1, tail, read) == Some((xs[1..], rest));
      assert [xs[0]] + xs[1..] == xs;
    }
  }
}
