/**
 * The client identity hash of lib/dhcp/utils.h: starting from a fixed seed,
 * every byte b updates the 32-bit accumulator h to h + (rotr(h, 7) ^ b),
 * with the addition wrapping modulo 2^32 (bv32 arithmetic).
 */
module Utils {

  /** The seed of the hash. */
  const Seed: bv32 := 0xa5a5_5a5a

  /** The rotation as the source spells it, (h << 25) | (h >> 7): a rotation right by 7. */
  function RotR7(h: bv32): bv32
  {
    (h << 25) | (h >> 7)
  }

  /** (h << 25) | (h >> 7) is indeed rotate-right by 7, undone by rotate-left by 7. */
  lemma RotR7IsRotation(h: bv32)
    ensures RotR7(h) == h.RotateRight(7)
    ensures RotR7(h).RotateLeft(7) == h
  {
  }

  /** One step of the hash loop. */
  function Step(h: bv32, b: bv8): bv32
  {
    h + (RotR7(h) ^ (b as bv32))
  }

  /** Step folded over `data` from the left, starting from accumulator `h`. */
  function Fold(h: bv32, data: seq<bv8>): bv32
    decreases |data|
  {
    if data == [] then h else Fold(Step(h, data[0]), data[1..])
  }

  /** hash(data, len), with `data` the len bytes it reads. */
  function Hash(data: seq<bv8>): (r: bv32)
    ensures data == [] ==> r == Seed
    ensures data != [] ==> r == Step(Fold(Seed, data[..|data| - 1]), data[|data| - 1])
  {
    if data == [] then Seed
    else
      var n := |data| - 1;
      FoldAppend(Seed, data[..n], data[n]);
      assert data[..n] + [data[n]] == data;
      Fold(Seed, data)
  }

  /** Folding over one more byte is one more step: the fold consumes the bytes in order. */
  lemma {:induction false} FoldAppend(h: bv32, s: seq<bv8>, b: bv8)
    ensures Fold(h, s + [b]) == Step(Fold(h, s), b)
    decreases |s|
  {
    if s == [] {
      assert (s + [b])[1..] == [];
    } else {
      assert (s + [b])[1..] == s[1..] + [b];
      FoldAppend(Step(h, s[0]), s[1..], b);
    }
  }

  /** Folding over a concatenation is folding over the second part from the first part's result. */
  lemma {:induction false} FoldConcat(h: bv32, s: seq<bv8>, t: seq<bv8>)
    ensures Fold(h, s + t) == Fold(Fold(h, s), t)
    decreases |s|
  {
    if s == [] {
      assert s + t == t;
    } else {
      assert (s + t)[1..] == s[1..] + t;
      FoldConcat(Step(h, s[0]), s[1..], t);
    }
  }

  /** The hash of no bytes is the seed, and hashing one more byte is one more step. */
  lemma HashIsLeftFold(s: seq<bv8>, b: bv8)
    ensures Hash([]) == Seed
    ensures Hash(s + [b]) == Step(Hash(s), b)
  {
    FoldAppend(Seed, s, b);
  }

  /** hash(data + from, len): the loop of the source, over the len bytes starting at `from`. */
  method HashBytes(data: array<bv8>, from: nat, len: nat) returns (hash: bv32)
    requires from + len <= data.Length
    ensures hash == Hash(data[from..from + len])
  {
    hash := Seed;
    for i := 0 to len
      invariant hash == Hash(data[from..from + i])
    {
      ghost var prefix := data[from..from + i];
      hash := Step(hash, data[from + i]);
      assert data[from..from + i + 1] == prefix + [data[from + i]];
      FoldAppend(Seed, prefix, data[from + i]);
    }
  }
}
