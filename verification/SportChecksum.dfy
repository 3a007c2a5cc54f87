/** The S.Port packet checksum: an end-around-carry fold over the bytes after the physical ID. */
module SportChecksum {
  import opened Common

  function Fold(checksum: byte, b: byte): byte {
    var sum: nat := checksum + b;
    (sum + sum / 256) % 256
  }

  function ChecksumOf(bytes: seq<byte>): byte {
    if bytes == [] then 0 else Fold(ChecksumOf(bytes[..|bytes| - 1]), bytes[|bytes| - 1])
  }

  method Checksum(bytes: seq<byte>) returns (checksum: byte)
    ensures checksum == ChecksumOf(bytes)
  {
    checksum := 0;
    assert bytes[..0] == [];
    for i := 0 to |bytes|
      invariant checksum == ChecksumOf(bytes[..i])
    {
      assert bytes[..i + 1][..i] == bytes[..i];
      checksum := Fold(checksum, bytes[i]);
    }
    assert bytes[..|bytes|] == bytes;
  }

  /** The byte that completes a packet's checksum. */
  function Seal(body: seq<byte>): byte {
    255 - ChecksumOf(body)
  }

  function Sum(bytes: seq<byte>): nat {
    if bytes == [] then 0 else Sum(bytes[..|bytes| - 1]) + bytes[|bytes| - 1]
  }

  function Residue(n: nat): nat {
    n % 255
  }

  lemma ResidueTurn(n: nat)
    ensures Residue(n + 255) == Residue(n)
  {
  }

  lemma ResidueSum(x: nat, y: nat, b: nat)
    requires Residue(x) == Residue(y)
    ensures Residue(x + b) == Residue(y + b)
  {
    assert x == 255 * (x / 255) + x % 255 && y == 255 * (y / 255) + y % 255;
    assert x + b == 255 * (x / 255 - y / 255) + (y + b);
  }

  lemma ResidueSmall(n: byte)
    ensures Residue(n) == 0 <==> n == 0 || n == 255
  {
  }

  lemma ResiduesApart(m: nat, n: nat)
    requires Residue(m) == 0 && m < n <= m + 255
    ensures Residue(n) == 0 <==> n == m + 255
  {
    ResidueSum(m, 0, n - m);
    ResidueSmall(n - m);
  }

  lemma FoldValue(checksum: byte, b: byte)
    ensures var total: nat := checksum + b;
            Fold(checksum, b) as int == if total < 256 then total else total - 255
  {
    var total: nat := checksum + b;
    assert total / 256 == if total < 256 then 0 else 1;
  }

  lemma SealCompletes(body: seq<byte>)
    ensures ChecksumOf(body + [Seal(body)]) == 255
  {
    hide Fold;
    assert (body + [Seal(body)])[..|body|] == body;
    FoldValue(ChecksumOf(body), Seal(body));
  }

  /** The fold is the sum modulo 255, where a positive multiple of 255 stands as 255 and only zero as zero. */
  lemma {:induction false} ChecksumIsResidue(bytes: seq<byte>)
    ensures Residue(ChecksumOf(bytes)) == Residue(Sum(bytes))
    ensures ChecksumOf(bytes) == 0 <==> Sum(bytes) == 0
  {
    hide Fold, Residue;
    if bytes != [] {
      var before, b := bytes[..|bytes| - 1], bytes[|bytes| - 1];
      ChecksumIsResidue(before);
      FoldValue(ChecksumOf(before), b);
      ResidueSum(ChecksumOf(before), Sum(before), b);
      if ChecksumOf(before) + b >= 256 {
        ResidueTurn(ChecksumOf(before) + b - 255);
      }
    }
  }

  /** A packet passes exactly when its covered bytes sum to a positive multiple of 255. */
  lemma AcceptedExactly(bytes: seq<byte>)
    ensures ChecksumOf(bytes) == 255 <==> Sum(bytes) > 0 && Residue(Sum(bytes)) == 0
  {
    hide Residue;
    ChecksumIsResidue(bytes);
    ResidueSmall(ChecksumOf(bytes));
  }

  lemma {:induction false} SumAppend(a: seq<byte>, b: seq<byte>)
    ensures Sum(a + b) == Sum(a) + Sum(b)
  {
    if b == [] {
      assert a + b == a;
    } else {
      assert (a + b)[..|a + b| - 1] == a + b[..|b| - 1];
      SumAppend(a, b[..|b| - 1]);
    }
  }

  /**
    * One changed byte goes unnoticed exactly when it is 0x00 for 0xFF or the reverse and the packet still has
    * a non-zero byte. Any other single-byte change of an accepted packet is refused.
    */
  lemma ByteChangeDetected(before: seq<byte>, x: byte, y: byte, after: seq<byte>)
    requires x != y && ChecksumOf(before + [x] + after) == 255
    ensures ChecksumOf(before + [y] + after) == 255
            <==> (x == 0 && y == 255) || (x == 255 && y == 0 && Sum(before + after) > 0)
  {
    hide Residue, ChecksumOf;
    AcceptedExactly(before + [x] + after);
    AcceptedExactly(before + [y] + after);
    SumAppend(before + [x], after);
    SumAppend(before, [x]);
    SumAppend(before + [y], after);
    SumAppend(before, [y]);
    SumAppend(before, after);
    SumOne(x);
    SumOne(y);
    var rest := Sum(before) + Sum(after);
    if x < y {
      ResiduesApart(rest + x, rest + y);
    } else if Residue(rest + y) == 0 {
      ResiduesApart(rest + y, rest + x);
    } else if x == 255 && y == 0 {
      ResidueTurn(rest + y);
    }
  }

  lemma SumOne(b: byte)
    ensures Sum([b]) == b
  {
    assert [b][..0] == [];
  }
}
