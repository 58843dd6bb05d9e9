/**
 * Records written back to back: the byte layout of a list whose elements are
 * each encoded on their own and concatenated, and where each record then
 * starts. Stated for any element type and any encoder, so that reasoning
 * about the layout never has to look inside an encoder.
 */
module Records {
  import opened Bytes

  /** The records of `xs`, in order, with nothing between them. */
  function Concat<T>(xs: seq<T>, enc: T -> seq<byte>): seq<byte> {
    if xs == [] then [] else enc(xs[0]) + Concat(xs[1..], enc)
  }

  /** Appending an element appends its record. */
  lemma {:induction false} ConcatSnoc<T>(xs: seq<T>, x: T, enc: T -> seq<byte>)
    ensures Concat(xs + [x], enc) == Concat(xs, enc) + enc(x)
  {
    if xs == [] {
      assert [x][1..] == [];
    } else {
      assert (xs + [x])[1..] == xs[1..] + [x];
      ConcatSnoc(xs[1..], x, enc);
    }
  }

  /** Where each record of `xs` starts when they are written from `p`, followed by where the last one ends. */
  function Cuts<T>(p: nat, xs: seq<T>, enc: T -> seq<byte>): (r: seq<nat>)
    ensures |r| == |xs| + 1 && r[0] == p
    decreases |xs|
  {
    if xs == [] then [p] else [p] + Cuts(p + |enc(xs[0])|, xs[1..], enc)
  }

  /** Record `i` sits at `cuts[i]` in `d` and ends where record `i + 1` starts. */
  predicate HeldAt<T>(d: seq<byte>, xs: seq<T>, enc: T -> seq<byte>, cuts: seq<nat>) {
    |cuts| == |xs| + 1 &&
    forall i :: 0 <= i < |xs| ==> cuts[i + 1] == cuts[i] + |enc(xs[i])| && Holds(d, cuts[i], enc(xs[i]))
  }

  /** Records written back to back from `p` each sit at their cut point, and the last ends after them all. */
  lemma {:induction false} ConcatHeld<T>(d: seq<byte>, p: nat, xs: seq<T>, enc: T -> seq<byte>)
    requires Holds(d, p, Concat(xs, enc))
    ensures HeldAt(d, xs, enc, Cuts(p, xs, enc)) && Cuts(p, xs, enc)[|xs|] == p + |Concat(xs, enc)|
    decreases |xs|
  {
    if xs != [] {
      var e, tail := enc(xs[0]), Concat(xs[1..], enc);
      HoldsSplit(d, p, e, tail);
      ConcatHeld(d, p + |e|, xs[1..], enc);
      var c' := Cuts(p + |e|, xs[1..], enc);
      assert Cuts(p, xs, enc) == [p] + c';
      HeldCons(d, p, xs, enc, c');
    }
  }

  /** A record held at `p` in front of records held at their cuts `c'` puts the whole list at `[p] + c'`. */
  lemma HeldCons<T>(d: seq<byte>, p: nat, xs: seq<T>, enc: T -> seq<byte>, c': seq<nat>)
    requires |xs| > 0 && HeldAt(d, xs[1..], enc, c') && c'[0] == p + |enc(xs[0])| && Holds(d, p, enc(xs[0]))
    ensures HeldAt(d, xs, enc, [p] + c') && ([p] + c')[|xs|] == c'[|xs| - 1]
  {
    var c := [p] + c';
    forall i | 0 <= i < |xs| ensures c[i + 1] == c[i] + |enc(xs[i])| && Holds(d, c[i], enc(xs[i])) {
      if i > 0 {
        assert c[i] == c'[i - 1] && c[i + 1] == c'[i] && xs[i] == xs[1..][i - 1];
      }
    }
  }

  /** Reads `k` records one after another with `dec`, appending each value to `acc`; the first failure aborts. */
  function ReadMany<T>(d: seq<byte>, p: nat, k: nat, acc: seq<T>, dec: (seq<byte>, nat) -> Result<Read<T>>)
    : (r: Result<Read<seq<T>>>)
    ensures r.Success? ==> |r.value.val| == |acc| + k
    decreases k
  {
    if k == 0 then Success(Read(acc, p))
    else
      var x :- dec(d, p);
      ReadMany(d, x.next, k - 1, acc + [x.val], dec)
  }

  /** One pass of the read loop: a record read, then the remaining count. */
  lemma ReadManyStep<T>(d: seq<byte>, p: nat, k: nat, acc: seq<T>, dec: (seq<byte>, nat) -> Result<Read<T>>,
                            x: T, q: nat)
    requires k > 0 && Gives(dec(d, p), x, q)
    ensures ReadMany(d, p, k, acc, dec) == ReadMany(d, q, k - 1, acc + [x], dec)
  {
  }

  /** A read of `dec` at `cuts[i]` gives `xs[i]` and stops at `cuts[i + 1]`. */
  predicate Chained<T(==)>(d: seq<byte>, xs: seq<T>, dec: (seq<byte>, nat) -> Result<Read<T>>, cuts: seq<nat>) {
    |cuts| == |xs| + 1 &&
    forall i {:trigger dec(d, cuts[i])} :: 0 <= i < |xs| ==> Gives(dec(d, cuts[i]), xs[i], cuts[i + 1])
  }

  /** Records that read one by one as `xs` read in a loop as exactly `xs`, ending after the last. */
  lemma {:induction false} ChainedMany<T>(d: seq<byte>, xs: seq<T>, dec: (seq<byte>, nat) -> Result<Read<T>>,
                                              cuts: seq<nat>, acc: seq<T>)
    requires Chained(d, xs, dec, cuts)
    ensures Gives(ReadMany(d, cuts[0], |xs|, acc, dec), acc + xs, cuts[|xs|])
    decreases |xs|
  {
    if xs == [] {
      assert acc + xs == acc;
    } else {
      ReadManyStep(d, cuts[0], |xs|, acc, dec, xs[0], cuts[1]);
      assert Chained(d, xs[1..], dec, cuts[1..]) by {
        forall i | 0 <= i < |xs| - 1 ensures Gives(dec(d, cuts[1..][i]), xs[1..][i], cuts[1..][i + 1]) {
          assert cuts[1..][i] == cuts[i + 1] && xs[1..][i] == xs[i + 1] && cuts[1..][i + 1] == cuts[i + 2];
        }
      }
      ChainedMany(d, xs[1..], dec, cuts[1..], acc + [xs[0]]);
      assert cuts[1..][0] == cuts[1] && |xs[1..]| == |xs| - 1 && cuts[1..][|xs| - 1] == cuts[|xs|];
      assert acc + [xs[0]] + xs[1..] == acc + xs by {
        assert [xs[0]] + xs[1..] == xs;
      }
    }
  }

  /** When no single read fails with `e`, neither does the loop. */
  lemma {:induction false} ReadManyAvoids<T>(d: seq<byte>, p: nat, k: nat, acc: seq<T>,
                                            dec: (seq<byte>, nat) -> Result<Read<T>>, e: IOError)
    requires forall q :: dec(d, q).Failure? ==> dec(d, q).error != e
    ensures ReadMany(d, p, k, acc, dec).Failure? ==> ReadMany(d, p, k, acc, dec).error != e
    decreases k
  {
    if k > 0 && dec(d, p).Success? {
      var x := dec(d, p).value;
      ReadManyAvoids(d, x.next, k - 1, acc + [x.val], dec, e);
    }
  }

  /** A failing record read aborts the loop with its error. */
  lemma ReadManyFails<T>(d: seq<byte>, p: nat, k: nat, acc: seq<T>, dec: (seq<byte>, nat) -> Result<Read<T>>)
    requires k > 0 && dec(d, p).Failure?
    ensures ReadMany(d, p, k, acc, dec) == Failure(dec(d, p).error)
  {
  }

  /** Writing one more record after `head` and the records of `xs` writes `head` and the records of `xs + [x]`. */
  lemma SpliceConcatSnoc<T>(d: seq<byte>, p: nat, head: seq<byte>, xs: seq<T>, x: T, enc: T -> seq<byte>)
    requires p <= |d|
    ensures Splice(Splice(d, p, head + Concat(xs, enc)), p + |head + Concat(xs, enc)|, enc(x))
         == Splice(d, p, head + Concat(xs + [x], enc))
  {
    SnocRecords(head, xs, x, enc);
    SpliceExtend(d, p, head + Concat(xs, enc), enc(x), head + Concat(xs + [x], enc));
  }

  /** A stream holding `head` and the records of `xs` at `p`, after one more record is written, holds `head` and the records of `xs + [x]`. */
  lemma WrittenAfter<T>(d: seq<byte>, p: nat, head: seq<byte>, xs: seq<T>, x: T, enc: T -> seq<byte>,
                        d1: seq<byte>, q1: nat, d2: seq<byte>, q2: nat)
    requires p <= |d| && d1 == Splice(d, p, head + Concat(xs, enc)) && q1 == p + |head + Concat(xs, enc)|
    requires d2 == Splice(d1, q1, enc(x)) && q2 == q1 + |enc(x)|
    ensures d2 == Splice(d, p, head + Concat(xs + [x], enc)) && q2 == p + |head + Concat(xs + [x], enc)|
  {
    SpliceConcatSnoc(d, p, head, xs, x, enc);
    SnocRecords(head, xs, x, enc);
  }

  /** `head` and the records of `xs + [x]` are `head`, the records of `xs`, and the record of `x`. */
  lemma SnocRecords<T>(head: seq<byte>, xs: seq<T>, x: T, enc: T -> seq<byte>)
    ensures head + Concat(xs + [x], enc) == head + Concat(xs, enc) + enc(x)
  {
    ConcatSnoc(xs, x, enc);
    AppendAssoc(head, Concat(xs, enc), enc(x));
  }

  lemma AppendAssoc<T>(a: seq<T>, b: seq<T>, c: seq<T>)
    ensures a + b + c == a + (b + c)
  {
  }

  /** One more record that reads as `x` where the chain ends extends the chain. */
  lemma ChainedSnoc<T>(d: seq<byte>, xs: seq<T>, dec: (seq<byte>, nat) -> Result<Read<T>>, cuts: seq<nat>,
                       x: T, q: nat)
    requires Chained(d, xs, dec, cuts) && Gives(dec(d, cuts[|xs|]), x, q)
    ensures Chained(d, xs + [x], dec, cuts + [q])
  {
    var xs', cuts' := xs + [x], cuts + [q];
    forall i | 0 <= i < |xs'| ensures Gives(dec(d, cuts'[i]), xs'[i], cuts'[i + 1]) {
      if i < |xs| {
        assert cuts'[i] == cuts[i] && xs'[i] == xs[i] && cuts'[i + 1] == cuts[i + 1];
      }
    }
  }

  /** A record that fails to read after a chain of good ones makes a longer loop fail with its error. */
  lemma {:induction false} ChainedFails<T>(d: seq<byte>, xs: seq<T>, dec: (seq<byte>, nat) -> Result<Read<T>>,
                                          cuts: seq<nat>, k: nat, acc: seq<T>)
    requires Chained(d, xs, dec, cuts) && |xs| < k && dec(d, cuts[|xs|]).Failure?
    ensures ReadMany(d, cuts[0], k, acc, dec) == Failure(dec(d, cuts[|xs|]).error)
    decreases |xs|
  {
    if xs != [] {
      ReadManyStep(d, cuts[0], k, acc, dec, xs[0], cuts[1]);
      assert Chained(d, xs[1..], dec, cuts[1..]) by {
        forall i | 0 <= i < |xs| - 1 ensures Gives(dec(d, cuts[1..][i]), xs[1..][i], cuts[1..][i + 1]) {
          assert cuts[1..][i] == cuts[i + 1] && xs[1..][i] == xs[i + 1] && cuts[1..][i + 1] == cuts[i + 2];
        }
      }
      ChainedFails(d, xs[1..], dec, cuts[1..], k - 1, acc + [xs[0]]);
      assert cuts[1..][0] == cuts[1] && cuts[1..][|xs[1..]|] == cuts[|xs|];
    }
  }

  /** The prefix up to `i + 1` is the prefix up to `i` and then entry `i`. */
  lemma TakeSnoc<T>(s: seq<T>, i: nat)
    requires i < |s|
    ensures s[..i + 1] == s[..i] + [s[i]]
  {
  }

  /** "`a` up to `i`, then `b`" is `b` when `i` is 0 and `a` when `i` is the whole length. */
  lemma PrefixEnds<T>(a: seq<T>, b: seq<T>)
    requires |a| == |b|
    ensures a[..0] + b[0..] == b && a[..|a|] + b[|a|..] == a && a[..|a|] == a
  {
  }

  /** Replacing entry `i` of "`a` up to `i`, then `b`" by `a[i]` moves the boundary up by one. */
  lemma PrefixAdvance<T>(a: seq<T>, b: seq<T>, i: nat)
    requires |a| == |b| && i < |a|
    ensures (a[..i] + b[i..])[i := a[i]] == a[..i + 1] + b[i + 1..]
  {
    var l, r := (a[..i] + b[i..])[i := a[i]], a[..i + 1] + b[i + 1..];
    assert |l| == |r|;
    forall j | 0 <= j < |l| ensures l[j] == r[j] {
      if j < i {
        assert l[j] == a[j] && r[j] == a[j];
      } else if j > i {
        assert l[j] == b[j] && r[j] == b[j];
      }
    }
  }
}
