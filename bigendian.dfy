/** The fixed-width big-endian integers of Python's `struct.pack('>H')` and
    `struct.pack('>I')`, and their readers. */
module BigEndian {
  import opened Common

  const U16Limit: nat := 0x1_0000
  const U32Limit: nat := 0x1_0000_0000

  /** Two bytes, most significant first. Only the low 16 bits of `n` are
      written; callers check `n < U16Limit` first, as `struct.pack` would. */
  function U16(n: nat): (r: seq<Byte>)
    ensures |r| == 2
  {
    [(n / 0x100) % 0x100, n % 0x100]
  }

  /** Four bytes, most significant first (low 32 bits of `n`). */
  function U32(n: nat): (r: seq<Byte>)
    ensures |r| == 4
  {
    [(n / 0x100_0000) % 0x100, (n / 0x1_0000) % 0x100, (n / 0x100) % 0x100, n % 0x100]
  }

  /** Reads a big-endian u16 off the front of `bs`; `None` when fewer than two bytes remain. */
  function ReadU16(bs: seq<Byte>): (r: Option<(nat, seq<Byte>)>)
    ensures r.None? <==> |bs| < 2
    ensures r.Some? ==> r.value.0 < U16Limit && r.value.1 == bs[2..]
  {
    if |bs| < 2 then None else Some(((bs[0] as nat) * 0x100 + bs[1] as nat, bs[2..]))
  }

  /** Reads a big-endian u32 off the front of `bs`; `None` when fewer than four bytes remain. */
  function ReadU32(bs: seq<Byte>): (r: Option<(nat, seq<Byte>)>)
    ensures r.None? <==> |bs| < 4
    ensures r.Some? ==> r.value.0 < U32Limit && r.value.1 == bs[4..]
  {
    if |bs| < 4 then None
    else Some(((((bs[0] as nat) * 0x100 + bs[1] as nat) * 0x100 + bs[2] as nat) * 0x100 + bs[3] as nat, bs[4..]))
  }

  lemma ReadU16OfU16(n: nat, rest: seq<Byte>)
    requires n < U16Limit
    ensures ReadU16(U16(n) + rest) == Some((n, rest))
  {
    var bs := U16(n) + rest;
    assert bs[2..] == rest;
  }

  lemma ReadU32OfU32(n: nat, rest: seq<Byte>)
    requires n < U32Limit
    ensures ReadU32(U32(n) + rest) == Some((n, rest))
  {
    var bs := U32(n) + rest;
    assert bs[4..] == rest;
    var q1 := n / 0x100;
    var q2 := q1 / 0x100;
    var q3 := q2 / 0x100;
    assert n / 0x1_0000 == q2 && n / 0x100_0000 == q3;
    assert q3 < 0x100;
    assert ((q3 * 0x100 + q2 % 0x100) * 0x100 + q1 % 0x100) * 0x100 + n % 0x100 == n;
  }

  /** Distinct in-range values never share an encoding. */
  lemma U16Injective(m: nat, n: nat)
    requires m < U16Limit && n < U16Limit
    ensures U16(m) == U16(n) ==> m == n
  {
    if U16(m) == U16(n) {
      ReadU16OfU16(m, []);
      ReadU16OfU16(n, []);
      assert U16(m) + [] == U16(n) + [];
    }
  }
}
