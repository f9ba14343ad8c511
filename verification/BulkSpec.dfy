/** The reference meaning of `memory.fill` and `memory.copy`: the byte-at-a-time
    reduction rules of section 4.4.7 of the WebAssembly Core Specification 2.0. */
module BulkSpec {
  import opened Words

  /** `memory.copy`: when the destination is not above the source the lowest byte
      moves first, otherwise the highest byte moves first. */
  ghost function CopyBytes(m: seq<Byte>, d: nat, s: nat, n: nat): seq<Byte>
    requires d + n <= |m| && s + n <= |m|
    decreases n
  {
    if n == 0 then m
    else if d <= s then CopyBytes(m[d := m[s]], d + 1, s + 1, n - 1)
    else CopyBytes(m[d + n - 1 := m[s + n - 1]], d, s, n - 1)
  }

  /** `memory.fill`: one byte at a time, upwards. */
  ghost function FillBytes(m: seq<Byte>, d: nat, v: Byte, n: nat): seq<Byte>
    requires d + n <= |m|
    decreases n
  {
    if n == 0 then m else FillBytes(m[d := v], d + 1, v, n - 1)
  }

  /** `m` with the block `v` written at `at`. */
  ghost predicate Written(m: seq<Byte>, m': seq<Byte>, at: nat, v: seq<Byte>) {
    && |m'| == |m| && at + |v| <= |m|
    && forall i :: 0 <= i < |m| ==> m'[i] == if at <= i < at + |v| then v[i - at] else m[i]
  }

  /** The byte-at-a-time copy is a simultaneous move: every destination byte is the
      byte the source range held at the start, for every overlap. */
  lemma {:induction false} CopyIsSimultaneous(m: seq<Byte>, d: nat, s: nat, n: nat)
    requires d + n <= |m| && s + n <= |m|
    ensures Written(m, CopyBytes(m, d, s, n), d, m[s..s + n])
    decreases n
  {
    if n != 0 {
      if d <= s {
        CopyIsSimultaneous(m[d := m[s]], d + 1, s + 1, n - 1);
      } else {
        CopyIsSimultaneous(m[d + n - 1 := m[s + n - 1]], d, s, n - 1);
      }
    }
  }

  lemma {:induction false} FillIsUniform(m: seq<Byte>, d: nat, v: Byte, n: nat)
    requires d + n <= |m|
    ensures |FillBytes(m, d, v, n)| == |m|
    ensures forall i :: 0 <= i < |m| ==> FillBytes(m, d, v, n)[i] == if d <= i < d + n then v else m[i]
    decreases n
  {
    if n != 0 {
      FillIsUniform(m[d := v], d + 1, v, n - 1);
    }
  }

  /** A memory that agrees byte for byte with the simultaneous move is the copy. */
  lemma CopyUnique(m: seq<Byte>, m': seq<Byte>, d: nat, s: nat, n: nat)
    requires d + n <= |m| && s + n <= |m|
    requires Written(m, m', d, m[s..s + n])
    ensures m' == CopyBytes(m, d, s, n)
  {
    CopyIsSimultaneous(m, d, s, n);
  }

  lemma FillUnique(m: seq<Byte>, m': seq<Byte>, d: nat, v: Byte, n: nat)
    requires d + n <= |m| == |m'|
    requires forall i :: 0 <= i < |m| ==> m'[i] == if d <= i < d + n then v else m[i]
    ensures m' == FillBytes(m, d, v, n)
  {
    FillIsUniform(m, d, v, n);
  }
}
