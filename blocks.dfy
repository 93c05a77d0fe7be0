/**
 * Records written one after another: the bytes a loop produces when it
 * writes each element of a list in turn, and the list of what a loop builds
 * when it maps each element in turn.
 */
module Blocks {
  import opened BigEndian

  /** The encodings of the elements of xs, in order, as the writing loop emits them. */
  function Concat<S>(xs: seq<S>, encode: S -> seq<Byte>): seq<Byte>
  {
    if |xs| == 0 then [] else Concat(xs[..|xs| - 1], encode) + encode(xs[|xs| - 1])
  }

  /** Writing one more element appends its encoding. */
  lemma {:induction false} ConcatSnoc<S>(xs: seq<S>, x: S, encode: S -> seq<Byte>)
    ensures Concat(xs + [x], encode) == Concat(xs, encode) + encode(x)
  {
    assert (xs + [x])[..|xs|] == xs;
  }

  /** Appending two pieces one after the other appends their concatenation. */
  lemma AppendTwice<T>(a: seq<T>, b: seq<T>, c: seq<T>)
    ensures a + b + c == a + (b + c)
  {
  }

  /** The first element's encoding comes first. */
  lemma {:induction false} ConcatFront<S>(xs: seq<S>, encode: S -> seq<Byte>)
    requires |xs| > 0
    ensures Concat(xs, encode) == encode(xs[0]) + Concat(xs[1..], encode)
    decreases |xs|
  {
    if |xs| == 1 {
      assert xs[..0] == [] && xs[1..] == [];
    } else {
      var init := xs[..|xs| - 1];
      ConcatFront(init, encode);
      assert init[1..] == xs[1..][..|xs| - 2];
      assert init[0] == xs[0];
    }
  }

  /** Elements of one fixed encoded size n take n bytes each. */
  lemma {:induction false} ConcatLength<S>(xs: seq<S>, encode: S -> seq<Byte>, n: nat)
    requires forall x :: |encode(x)| == n
    ensures |Concat(xs, encode)| == n * |xs|
    decreases |xs|
  {
    if |xs| > 0 {
      ConcatLength(xs[..|xs| - 1], encode, n);
    }
  }

  /** f applied to each element of xs, in order. */
  function Map<S, T>(xs: seq<S>, f: S -> T): (r: seq<T>)
    ensures |r| == |xs|
    ensures forall i :: 0 <= i < |xs| ==> r[i] == f(xs[i])
  {
    seq(|xs|, i requires 0 <= i < |xs| => f(xs[i]))
  }

  /** Mapping the first element, then the rest. */
  lemma {:induction false} MapFront<S, T>(xs: seq<S>, f: S -> T)
    requires |xs| > 0
    ensures Map(xs, f) == [f(xs[0])] + Map(xs[1..], f)
  {
    var r := Map(xs, f);
    var s := [f(xs[0])] + Map(xs[1..], f);
    assert |r| == |s|;
    forall i | 0 <= i < |r|
      ensures r[i] == s[i]
    {
      if i > 0 {
        assert s[i] == Map(xs[1..], f)[i - 1] == f(xs[1..][i - 1]);
      }
    }
  }

  /** Writing a then b emits the encodings of a, then those of b. */
  lemma {:induction false} ConcatAppend<S>(a: seq<S>, b: seq<S>, encode: S -> seq<Byte>)
    ensures Concat(a + b, encode) == Concat(a, encode) + Concat(b, encode)
    decreases |b|
  {
    if |b| == 0 {
      assert a + b == a;
    } else {
      var init := b[..|b| - 1];
      assert a + b == (a + init) + [b[|b| - 1]];
      ConcatSnoc(a + init, b[|b| - 1], encode);
      ConcatAppend(a, init, encode);
      AppendTwice(Concat(a, encode), Concat(init, encode), encode(b[|b| - 1]));
    }
  }

  /** Where each element's encoding starts: offset i is p plus the bytes of the first i elements. */
  function Offsets<S>(p: nat, xs: seq<S>, encode: S -> seq<Byte>): (ps: seq<nat>)
    ensures |ps| == |xs| + 1
    ensures forall i :: 0 <= i <= |xs| ==> ps[i] == p + |Concat(xs[..i], encode)|
  {
    seq(|xs| + 1, i requires 0 <= i <= |xs| => p + |Concat(xs[..i], encode)|)
  }

  /** Each offset is the one before it plus the element's encoded size. */
  lemma OffsetsStep<S>(p: nat, xs: seq<S>, encode: S -> seq<Byte>, i: nat)
    requires i < |xs|
    ensures Offsets(p, xs, encode)[i + 1] == After(Offsets(p, xs, encode)[i], encode(xs[i]))
  {
    assert xs[..i + 1] == xs[..i] + [xs[i]];
    ConcatSnoc(xs[..i], xs[i], encode);
  }

  /** The first offset is p, the last p plus all the bytes. */
  lemma OffsetsEnds<S>(p: nat, xs: seq<S>, encode: S -> seq<Byte>)
    ensures Offsets(p, xs, encode)[0] == p
    ensures Offsets(p, xs, encode)[|xs|] == After(p, Concat(xs, encode))
  {
    assert xs[..0] == [] && xs[..|xs|] == xs;
  }

  /** The position just past the bytes bs written at p. */
  function After(p: nat, bs: seq<Byte>): nat
  {
    p + |bs|
  }

  /** The bytes bs are found in data at position p. */
  predicate At(data: seq<Byte>, p: nat, bs: seq<Byte>)
  {
    p + |bs| <= |data| && data[p..p + |bs|] == bs
  }

  /** Bytes a then b at p: a at p, and b right after it. */
  lemma {:induction false} AtSplit(data: seq<Byte>, p: nat, a: seq<Byte>, b: seq<Byte>)
    requires At(data, p, a + b)
    ensures At(data, p, a) && At(data, p + |a|, b)
  {
    assert data[p..p + |a|] == data[p..p + |a + b|][..|a|];
    assert data[p + |a|..p + |a| + |b|] == data[p..p + |a + b|][|a|..];
  }

  /** Bytes a then b at p, with q naming the position where b starts. */
  lemma {:induction false} AtParts(data: seq<Byte>, p: nat, a: seq<Byte>, b: seq<Byte>, q: nat)
    requires At(data, p, a + b) && q == p + |a|
    ensures At(data, p, a) && At(data, q, b)
  {
    AtSplit(data, p, a, b);
  }

  /** The encodings of xs at p: element i's encoding follows those of the elements before it. */
  lemma ConcatAt<S>(data: seq<Byte>, p: nat, xs: seq<S>, encode: S -> seq<Byte>, i: nat)
    requires At(data, p, Concat(xs, encode)) && i < |xs|
    ensures At(data, p + |Concat(xs[..i], encode)|, encode(xs[i]))
  {
    var before := xs[..i];
    var after := xs[i + 1..];
    var rest := [xs[i]] + after;
    assert xs == before + rest;
    ConcatAppend(before, rest, encode);
    ConcatFront(rest, encode);
    assert rest[1..] == after;
    var a := Concat(before, encode);
    var b := encode(xs[i]);
    var c := Concat(after, encode);
    AppendTwice(a, b, c);
    AtSplit(data, p, a + b, c);
    AtSplit(data, p, a, b);
  }
}
