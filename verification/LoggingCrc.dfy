/**
  * The two logging messages by numbers: their derived CRC_EXTRA bytes, and why neither message is ever taken for the
  * other. No frame has the same CRC under both identifiers, whatever its length and its neighbouring byte. The long
  * rows below are the registers that the two runs pass through, each checked against the one before it.
  */
module LoggingCrc {
  import opened Common
  import opened Crc
  import opened CrcDifferences
  import opened CrcRegisters
  import Assembler

  // ---------------------------------------------------------------- the difference never comes out

  /** Two bytes that differ, the second in its last bit, leave this difference. */
  function Left(d: bv8): bv16 {
    Shifts16(Xor(Shifts16(Wide(d)), 1))
  }

  /** No difference of that kind becomes `y` in fewer than `n` further bytes. */
  predicate Clear(y: bv16, n: nat)
    decreases n
  {
    if n == 0 then true else HighByte(Unturned(Unturned(y) ^ 1)) != 0 && Clear(Unturned(y), n - 1)
  }

  predicate Leads(y: bv16, z: bv16) {
    Unturned(y) == z && HighByte(Unturned(z ^ 1)) != 0
  }

  lemma LeadOne(y: bv16, z: bv16, n: nat)
    requires Leads(y, z) && Clear(z, n)
    ensures Clear(y, n + 1)
  {
    hide Unturned, HighByte;
  }

  lemma Lead(a: bv16, b: bv16, c: bv16, d: bv16, e: bv16, f: bv16, g: bv16, h: bv16, i: bv16, n: nat)
    requires Leads(a, b) && Leads(b, c) && Leads(c, d) && Leads(d, e)
    requires Leads(e, f) && Leads(f, g) && Leads(g, h) && Leads(h, i) && Clear(i, n)
    ensures Clear(a, n + 8)
  {
    hide Leads, Clear;
    LeadOne(h, i, n);
    LeadOne(g, h, n + 1);
    LeadOne(f, g, n + 2);
    LeadOne(e, f, n + 3);
    LeadOne(d, e, n + 4);
    LeadOne(c, d, n + 5);
    LeadOne(b, c, n + 6);
    LeadOne(a, b, n + 7);
  }

  lemma ClearBeyond()
    ensures Clear(0xCAC9, 48)
  {
    Lead(0x124D, 0xDC32, 0xEF7A, 0x3468, 0xC365, 0x4195, 0x8973, 0x135D, 0xC423, 0);
    Lead(0x5D5E, 0xA3AF, 0x95C6, 0x4781, 0xAD15, 0x5F28, 0xC58D, 0x99F3, 0x124D, 8);
    Lead(0x5204, 0x8150, 0x70D5, 0x4A43, 0x07C8, 0xF077, 0xC087, 0xBBA6, 0x5D5E, 16);
    Lead(0x53AA, 0x2741, 0x7346, 0xC170, 0x44B7, 0x8326, 0x16F7, 0x4676, 0x5204, 24);
    Lead(0x8160, 0x40D5, 0xC162, 0x56B7, 0x1214, 0x8532, 0x3291, 0x0A03, 0x53AA, 32);
    Lead(0xCAC9, 0xA50C, 0x06A0, 0x9066, 0xCFD4, 0x9059, 0xF0D4, 0x6387, 0x8160, 40);
  }

  lemma ClearFar()
    ensures Clear(0xAE98, 96)
  {
    ClearBeyond();
    Lead(0xAA5C, 0x2E5F, 0x25DF, 0xFD64, 0xBB5A, 0xA15E, 0x74E4, 0x5B07, 0xCAC9, 48);
    Lead(0x0922, 0x6A99, 0xD7F9, 0x7CC1, 0x3E8F, 0x74CF, 0x7007, 0x9843, 0xAA5C, 56);
    Lead(0xFCA6, 0x714B, 0xDC52, 0x8F7A, 0x2A3B, 0x619B, 0x8D42, 0x0219, 0x0922, 64);
    Lead(0x4668, 0x4C04, 0x70AE, 0x3143, 0xC030, 0x0CA6, 0xC6CC, 0xC0C0, 0xFCA6, 72);
    Lead(0x6176, 0x6042, 0x5C53, 0xA6BE, 0xAC93, 0xD139, 0x8CA7, 0xEF08, 0x4668, 80);
    Lead(0xAE98, 0xCA1B, 0x770C, 0xAB34, 0x4E4E, 0x2A8C, 0xD69B, 0x16D0, 0x6176, 88);
  }

  lemma ClearOn()
    ensures Clear(0xEFD3, 152)
  {
    ClearFar();
    Lead(0xDE99, 0x5458, 0xED36, 0x684A, 0x14DB, 0x7A54, 0x9BE9, 0x186F, 0xAE98, 96);
    Lead(0x4E6A, 0x0E8C, 0xFCEE, 0x394B, 0x88B8, 0xD04C, 0xF1B6, 0x0996, 0xDE99, 104);
    Lead(0xB4F5, 0x76A1, 0x0E25, 0x55EE, 0x5327, 0xAA41, 0x335F, 0xCC12, 0x4E6A, 112);
    Lead(0xEBDB, 0xB52C, 0xA7B0, 0xAA82, 0xF05F, 0xE887, 0xF11F, 0xA096, 0xB4F5, 120);
    Lead(0x061D, 0x2D66, 0x04EC, 0xCC44, 0x186A, 0xAB98, 0xE24E, 0x68B5, 0xEBDB, 128);
    Lead(0xB968, 0x837C, 0x4CF7, 0x83AE, 0x9EF7, 0x2E3A, 0x40DF, 0xCB62, 0x061D, 136);
    Lead(0xEFD3, 0x9D68, 0xA909, 0x636C, 0x6A60, 0x2EF9, 0x83DF, 0xEFF7, 0xB968, 144);
  }

  lemma ClearNear()
    ensures Clear(0xE04A, 208)
  {
    ClearOn();
    Lead(0x44D7, 0xE326, 0x08A4, 0xE488, 0x9ED3, 0x0A3A, 0x6AAA, 0xE4F9, 0xEFD3, 152);
    Lead(0xC115, 0x21B7, 0xB520, 0xABB0, 0xCA4E, 0x220C, 0x1613, 0xA276, 0x44D7, 160);
    Lead(0x12D7, 0x4632, 0x1604, 0xB576, 0xFDB0, 0x6F5A, 0x3CAC, 0x47ED, 0xC115, 168);
    Lead(0xEB17, 0x792C, 0xFBDA, 0x353C, 0x9F74, 0xA52B, 0x21A0, 0xA220, 0x12D7, 176);
    Lead(0x936C, 0xDDE7, 0x326B, 0xF003, 0xB487, 0x04A1, 0x8144, 0x64D5, 0xEB17, 184);
    Lead(0x73D9, 0x5E70, 0x959C, 0x1D81, 0x68CD, 0x93DB, 0x6AE7, 0xA9F9, 0x936C, 192);
    Lead(0xE04A, 0x7C97, 0x688F, 0xD1DB, 0x6EA7, 0xC9BD, 0xC93F, 0x4B3F, 0x73D9, 200);
  }

  lemma ClearHere()
    ensures Clear(0x00E2, 264)
  {
    ClearNear();
    Lead(0x61BA, 0xAC42, 0x0039, 0x3900, 0xC3B8, 0x9C95, 0x5C18, 0xEDBE, 0xE04A, 208);
    Lead(0x3BE9, 0x3A9A, 0x418B, 0x9773, 0xE2A3, 0x85B5, 0xB591, 0x1AB0, 0x61BA, 216);
    Lead(0x1428, 0x8954, 0x345D, 0xF665, 0xE2E1, 0xC7B5, 0xB1D1, 0x7AF4, 0x3BE9, 224);
    Lead(0x41F3, 0xEF73, 0x3D68, 0x8BFC, 0x8C7F, 0x3708, 0xBB56, 0xAD5E, 0x1428, 232);
    Lead(0x9198, 0x39C5, 0x06B8, 0x8866, 0x0E4C, 0x3CEE, 0x05ED, 0xC555, 0x41F3, 240);
    Lead(0x1127, 0xAE01, 0x531B, 0x9641, 0xD8B2, 0x4F3E, 0x529D, 0x1850, 0x9198, 248);
    Lead(0x00E2, 0xE200, 0x26B5, 0x8F57, 0x073B, 0x0377, 0x6F33, 0x55AC, 0x1127, 256);
  }

  lemma WideOne(x: bv16)
    ensures HighByte(x) == 0 <==> exists d: bv8 :: x == Wide(d)
  {
    if HighByte(x) == 0 {
      assert x == Wide((x & 0xFF) as bv8);
    }
  }

  /** A clear register is never the difference left by such a pair of bytes. */
  lemma {:induction false} NeverLeft(y: bv16, n: nat, d: bv8, k: nat)
    requires Clear(y, n) && k < n
    ensures Turns(Left(d), k) != y
    decreases k
  {
    hide Turned, Unturned, Shifts16, HighByte, Wide;
    if k == 0 {
      NotLeft(y, d);
    } else if Turns(Left(d), k) == y {
      TurnsMore(Left(d), k - 1, 1);
      var before := Turns(Left(d), k - 1);
      assert Turns(before, 1) == Shifts16(before);
      TurnedIsShifts(before);
      TurnedBack(before);
      NeverLeft(Unturned(y), n - 1, d, k - 1);
    }
  }

  lemma NotLeft(y: bv16, d: bv8)
    requires HighByte(Unturned(Unturned(y) ^ 1)) != 0
    ensures Left(d) != y
  {
    hide Turned, Unturned, Shifts16, HighByte, Wide;
    var inner := Shifts16(Wide(d));
    TurnedIsShifts(Xor(inner, 1));
    TurnedBack(Xor(inner, 1));
    XorTwice(inner);
    TurnedIsShifts(Wide(d));
    TurnedBack(Wide(d));
    WideOne(Wide(d));
  }

  lemma XorTwice(x: bv16)
    ensures Xor(x, 1) ^ 1 == x
  {
  }

  // ---------------------------------------------------------------- the two derived bytes

  lemma Turn(a: bv16, b: bv16, c: bv16, d: bv16, e: bv16, f: bv16, g: bv16, h: bv16, i: bv16, n: nat, y: bv16)
    requires Turned(a) == b && Turned(b) == c && Turned(c) == d && Turned(d) == e
    requires Turned(e) == f && Turned(f) == g && Turned(g) == h && Turned(h) == i && Turns(i, n) == y
    ensures Turns(a, n + 8) == y
  {
    hide Turned, Turns;
    TurnOne(h, i, n);
    TurnOne(g, h, n + 1);
    TurnOne(f, g, n + 2);
    TurnOne(e, f, n + 3);
    TurnOne(d, e, n + 4);
    TurnOne(c, d, n + 5);
    TurnOne(b, c, n + 6);
    TurnOne(a, b, n + 7);
  }

  lemma TurnOne(x: bv16, y: bv16, n: nat)
    requires Turned(x) == y
    ensures Turns(x, n + 1) == Turns(y, n)
  {
    hide Turned, Shifts16;
    TurnedIsShifts(x);
  }

  /** The rest of the declaration, the same for both names, turns the difference the names leave. */
  lemma FarTurns()
    ensures Turns(0x1FD9, 35) == 0x5BB9
  {
    hide Turns;
    assert Turned(0xA825) == 0x7607 && Turned(0x7607) == 0x74C9 && Turned(0x74C9) == 0x5BB9;
    NoTurn(0x5BB9);
    TurnOne(0x74C9, 0x5BB9, 0);
    TurnOne(0x7607, 0x74C9, 1);
    TurnOne(0xA825, 0x7607, 2);
    Turn(0xBA91, 0x85BA, 0x1A54, 0x14BB, 0x0B4C, 0x8863, 0x5115, 0x477D, 0xA825, 3, 0x5BB9);
    Turn(0xCE1A, 0xBF15, 0x4793, 0xA655, 0x058E, 0x6D73, 0x4171, 0x624F, 0xBA91, 11, 0x5BB9);
    Turn(0xF555, 0x05DD, 0x0D6D, 0xB8EE, 0x0EC8, 0x4A4A, 0xED14, 0x5648, 0xCE1A, 19, 0x5BB9);
    Turn(0x1FD9, 0x4B53, 0x6055, 0x0548, 0xCE49, 0xDF0B, 0xBE0C, 0xCAD2, 0xF555, 27, 0x5BB9);
  }

  lemma NoTurn(x: bv16)
    ensures Turns(x, 0) == x
  {
  }

  lemma AllTurns()
    ensures Turns(0x0734, 123) == 0x5BB9
  {
    hide Turns;
    FarTurns();
    Turn(0x14DE, 0x3FE7, 0x938E, 0x6DE5, 0xB0CE, 0x2FC2, 0xE531, 0x20EF, 0x1FD9, 35, 0x5BB9);
    Turn(0xA8C1, 0xD72D, 0xFA30, 0x3179, 0xEE77, 0x07D6, 0xB3BC, 0x7F54, 0x14DE, 43, 0x5BB9);
    Turn(0x10BC, 0x7FF7, 0x834F, 0xBA70, 0x733D, 0xEA15, 0x47C6, 0xA37D, 0xA8C1, 51, 0x5BB9);
    Turn(0x8848, 0xCEC4, 0x80E6, 0x82B8, 0x3941, 0x53B4, 0xF3FC, 0x3D10, 0x10BC, 59, 0x5BB9);
    Turn(0x3CF9, 0x6A72, 0x50FF, 0x0F28, 0xAD45, 0x1504, 0x4631, 0x204C, 0x8848, 67, 0x5BB9);
    Turn(0xE882, 0xA7F2, 0xD43A, 0x9E0D, 0xDB7B, 0xCD8F, 0x7C32, 0x12ED, 0x3CF9, 75, 0x5BB9);
    Turn(0x4CCE, 0x2F3E, 0xD8D2, 0xF547, 0x364E, 0xAB4C, 0x88C3, 0xF41F, 0xE882, 83, 0x5BB9);
    Turn(0x6C63, 0x51F1, 0xE657, 0x26DC, 0x1CC7, 0xB2AF, 0x5D4F, 0xBAAE, 0x4CCE, 91, 0x5BB9);
    Turn(0x322C, 0xEB5C, 0x9802, 0x238A, 0x2B71, 0x6225, 0x76CD, 0x1D9F, 0x6C63, 99, 0x5BB9);
    Turn(0x3C4E, 0xAB46, 0x2799, 0x096F, 0x9BF8, 0x7B5C, 0x9892, 0xB703, 0x322C, 107, 0x5BB9);
    Turn(0x0734, 0x77A0, 0xA57D, 0xA8C7, 0xB21B, 0xAEE0, 0xE7A0, 0xA5ED, 0x3C4E, 115, 0x5BB9);
  }

  /** A register that takes a byte with these bits. */
  predicate Takes(a: bv16, bits: bv8, b: bv16) {
    Turned(a ^ (bits as bv16)) == b
  }

  /** The register stands at `a` when the first `k` bytes have been absorbed. */
  predicate Stands(data: seq<byte>, start: bv16, k: nat, a: bv16) {
    k <= |data| && Crc16(data, start) == Crc16(data[k..], a)
  }

  lemma Unspelled(data: seq<byte>, start: bv16)
    ensures Stands(data, start, 0, start)
  {
    hide Crc16;
    assert data[0..] == data;
  }

  lemma Letter(data: seq<byte>, start: bv16, k: nat, a: bv16, bits: bv8, b: bv16)
    requires Stands(data, start, k, a) && k < |data| && data[k] == ValueOf(bits) && Takes(a, bits, b)
    ensures Stands(data, start, k + 1, b)
  {
    hide Turned, Shifts16, ValueOf, BitsOf;
    ValueOfBits(data[k]);
    if BitsOf(data[k]) != bits {
      ValueInjective(BitsOf(data[k]), bits);
    }
    TurnedIsShifts(Entered(a, bits));
    assert data[k..][1..] == data[k + 1..];
  }

  lemma Spell(data: seq<byte>, start: bv16, k: nat, a: bv16, p: bv8, b: bv16, q: bv8, c: bv16, r: bv8, d: bv16,
              s: bv8, e: bv16)
    requires Stands(data, start, k, a) && k + 4 <= |data|
    requires data[k] == ValueOf(p) && data[k + 1] == ValueOf(q)
    requires data[k + 2] == ValueOf(r) && data[k + 3] == ValueOf(s)
    requires Takes(a, p, b) && Takes(b, q, c) && Takes(c, r, d) && Takes(d, s, e)
    ensures Stands(data, start, k + 4, e)
  {
    hide Takes, Stands, ValueOf;
    Letter(data, start, k, a, p, b);
    Letter(data, start, k + 1, b, q, c);
    Letter(data, start, k + 2, c, r, d);
    Letter(data, start, k + 3, d, s, e);
  }

  lemma Spelled(data: seq<byte>, start: bv16, a: bv16)
    requires Stands(data, start, |data|, a)
    ensures Crc16(data, start) == a
  {
    assert data[|data|..] == [];
  }

  /** The bits of the letters that the declarations are written in. */
  lemma Letters()
    ensures ValueOf(0x20) == 32 && ValueOf(0x31) == 49 && ValueOf(0x36) == 54 && ValueOf(0x38) == 56
    ensures ValueOf(0x41) == 65 && ValueOf(0x43) == 67 && ValueOf(0x44) == 68 && ValueOf(0x45) == 69
    ensures ValueOf(0x47) == 71 && ValueOf(0x49) == 73 && ValueOf(0x4B) == 75 && ValueOf(0x4C) == 76
    ensures ValueOf(0x4E) == 78 && ValueOf(0x4F) == 79 && ValueOf(0x54) == 84 && ValueOf(0x5F) == 95
    ensures ValueOf(0x61) == 97 && ValueOf(0x63) == 99 && ValueOf(0x64) == 100 && ValueOf(0x65) == 101
    ensures ValueOf(0x66) == 102 && ValueOf(0x67) == 103 && ValueOf(0x68) == 104 && ValueOf(0x69) == 105
    ensures ValueOf(0x6C) == 108 && ValueOf(0x6D) == 109 && ValueOf(0x6E) == 110 && ValueOf(0x6F) == 111
    ensures ValueOf(0x70) == 112 && ValueOf(0x71) == 113 && ValueOf(0x72) == 114 && ValueOf(0x73) == 115
    ensures ValueOf(0x74) == 116 && ValueOf(0x75) == 117 && ValueOf(0x79) == 121 && ValueOf(0xF9) == 249
  {
  }

  lemma NameSpelled()
    ensures Crc16(Assembler.Ascii("LOGGING_DATA") + [32], 0xFFFF) == 0xCBBE
  {
    hide Stands, Crc16, Absorb, Step16, Shifts16, BitsOf, Entered, ValueOf;
    Letters();
    var word := Assembler.Ascii("LOGGING_DATA") + [32];
    assert word[0] == 76 && word[1] == 79 && word[2] == 71 && word[3] == 71 && word[4] == 73 && word[5] == 78;
    assert word[6] == 71 && word[7] == 95 && word[8] == 68 && word[9] == 65 && word[10] == 84 && word[11] == 65;
    assert word[12] == 32;
    Unspelled(word, 0xFFFF);
    Spell(word, 0xFFFF, 0, 0xFFFF, 0x4C, 0x87EF, 0x4F, 0xA58D, 0x47, 0x69F3, 0x47, 0xF3C6);
    Spell(word, 0xFFFF, 4, 0xF3C6, 0x49, 0x7C0C, 0x4E, 0x616A, 0x47, 0xFA86, 0x5F, 0x4BB6);
    Spell(word, 0xFFFF, 8, 0x4BB6, 0x44, 0xD4D6, 0x41, 0xE0E2, 0x54, 0xD05D, 0x41, 0xDA3D);
    Letter(word, 0xFFFF, 12, 0xDA3D, 0x20, 0xCBBE);
    Spelled(word, 0xFFFF, 0xCBBE);
  }

  lemma AckedNameBegun()
    ensures Stands(Assembler.Ascii("LOGGING_DATA_ACKED") + [32], 0xFFFF, 8, 0x4BB6)
  {
    hide Stands, Crc16, Absorb, Step16, Shifts16, BitsOf, Entered, ValueOf;
    Letters();
    var word := Assembler.Ascii("LOGGING_DATA_ACKED") + [32];
    assert word[0] == 76 && word[1] == 79 && word[2] == 71 && word[3] == 71 && word[4] == 73 && word[5] == 78;
    assert word[6] == 71 && word[7] == 95;
    Unspelled(word, 0xFFFF);
    Spell(word, 0xFFFF, 0, 0xFFFF, 0x4C, 0x87EF, 0x4F, 0xA58D, 0x47, 0x69F3, 0x47, 0xF3C6);
    Spell(word, 0xFFFF, 4, 0xF3C6, 0x49, 0x7C0C, 0x4E, 0x616A, 0x47, 0xFA86, 0x5F, 0x4BB6);
  }

  lemma AckedNameSpelled()
    ensures Crc16(Assembler.Ascii("LOGGING_DATA_ACKED") + [32], 0xFFFF) == 0xCC8A
  {
    hide Stands, Crc16, Absorb, Step16, Shifts16, BitsOf, Entered, ValueOf;
    Letters();
    var word := Assembler.Ascii("LOGGING_DATA_ACKED") + [32];
    assert word[8] == 68 && word[9] == 65 && word[10] == 84 && word[11] == 65 && word[12] == 95 && word[13] == 65;
    assert word[14] == 67 && word[15] == 75 && word[16] == 69 && word[17] == 68 && word[18] == 32;
    AckedNameBegun();
    Spell(word, 0xFFFF, 8, 0x4BB6, 0x44, 0xD4D6, 0x41, 0xE0E2, 0x54, 0xD05D, 0x41, 0xDA3D);
    Spell(word, 0xFFFF, 12, 0xDA3D, 0x5F, 0x40CE, 0x41, 0x7CBF, 0x43, 0x3D9F, 0x4B, 0x9094);
    Letter(word, 0xFFFF, 16, 0x9094, 0x45, 0xC794);
    Letter(word, 0xFFFF, 17, 0xC794, 0x44, 0xD64A);
    Letter(word, 0xFFFF, 18, 0xD64A, 0x20, 0xCC8A);
    Spelled(word, 0xFFFF, 0xCC8A);
  }

  lemma WordTypeSpelled()
    ensures Crc16(Assembler.Ascii("uint16_t") + [32], 0xCBBE) == 0xAD72
  {
    hide Stands, Crc16, Absorb, Step16, Shifts16, BitsOf, Entered, ValueOf;
    Letters();
    var word := Assembler.Ascii("uint16_t") + [32];
    assert word[0] == 117 && word[1] == 105 && word[2] == 110 && word[3] == 116 && word[4] == 49 && word[5] == 54;
    assert word[6] == 95 && word[7] == 116 && word[8] == 32;
    Unspelled(word, 0xCBBE);
    Spell(word, 0xCBBE, 0, 0xCBBE, 0x75, 0x7814, 0x69, 0xA81A, 0x6E, 0x350B, 0x74, 0x8B45);
    Spell(word, 0xCBBE, 4, 0x8B45, 0x31, 0x3528, 0x36, 0xF9CA, 0x5F, 0xC3DD, 0x74, 0x3808);
    Letter(word, 0xCBBE, 8, 0x3808, 0x20, 0xAD72);
    Spelled(word, 0xCBBE, 0xAD72);
  }

  lemma SequenceSpelled()
    ensures Crc16(Assembler.Ascii("sequence") + [32], 0xAD72) == 0xF1CA
  {
    hide Stands, Crc16, Absorb, Step16, Shifts16, BitsOf, Entered, ValueOf;
    Letters();
    var word := Assembler.Ascii("sequence") + [32];
    assert word[0] == 115 && word[1] == 101 && word[2] == 113 && word[3] == 117 && word[4] == 101 && word[5] == 110;
    assert word[6] == 99 && word[7] == 101 && word[8] == 32;
    Unspelled(word, 0xAD72);
    Spell(word, 0xAD72, 0, 0xAD72, 0x73, 0x1124, 0x65, 0x539C, 0x71, 0x3CB8, 0x75, 0x1DD5);
    Spell(word, 0xAD72, 4, 0x1DD5, 0x65, 0xB596, 0x6E, 0x7B72, 0x63, 0x0173, 0x65, 0x75B6);
    Letter(word, 0xAD72, 8, 0x75B6, 0x20, 0xF1CA);
    Spelled(word, 0xAD72, 0xF1CA);
  }

  lemma ByteTypeSpelled()
    ensures Crc16(Assembler.Ascii("uint8_t") + [32], 0xF1CA) == 0x2AB8
    ensures Crc16(Assembler.Ascii("uint8_t") + [32], 0xF303) == 0x1F13
    ensures Crc16(Assembler.Ascii("uint8_t") + [32], 0x7154) == 0x0C32
    ensures Crc16(Assembler.Ascii("uint8_t") + [32], 0x31CC) == 0x7612
    ensures Crc16(Assembler.Ascii("uint8_t") + [32], 0xA9B5) == 0xBF50
  {
    hide Stands, Crc16, Absorb, Step16, Shifts16, BitsOf, Entered, ValueOf;
    Letters();
    var word := Assembler.Ascii("uint8_t") + [32];
    assert word[0] == 117 && word[1] == 105 && word[2] == 110 && word[3] == 116 && word[4] == 56 && word[5] == 95;
    assert word[6] == 116 && word[7] == 32;
    Unspelled(word, 0xF1CA);
    Spell(word, 0xF1CA, 0, 0xF1CA, 0x75, 0x4D8D, 0x69, 0xA167, 0x6E, 0x9D60, 0x74, 0x5638);
    Spell(word, 0xF1CA, 4, 0x5638, 0x38, 0x0056, 0x5F, 0x9DC1, 0x74, 0xE2BB, 0x20, 0x2AB8);
    Spelled(word, 0xF1CA, 0x2AB8);
    Unspelled(word, 0xF303);
    Spell(word, 0xF303, 0, 0xF303, 0x75, 0x1642, 0x69, 0x9FC7, 0x6E, 0x3854, 0x74, 0x213A);
    Spell(word, 0xF303, 4, 0x213A, 0x38, 0x2333, 0x5F, 0xA949, 0x74, 0xEACF, 0x20, 0x1F13);
    Spelled(word, 0xF303, 0x1F13);
    Unspelled(word, 0x7154);
    Spell(word, 0x7154, 0, 0x7154, 0x75, 0x30FA, 0x69, 0xA622, 0x6E, 0x88CE, 0x74, 0x1A59);
    Spell(word, 0x7154, 4, 0x1A59, 0x38, 0x7295, 0x5F, 0x6924, 0x74, 0x52EC, 0x20, 0x0C32);
    Spelled(word, 0x7154, 0x0C32);
    Unspelled(word, 0x31CC);
    Spell(word, 0x31CC, 0, 0x31CC, 0x75, 0x287B, 0x69, 0x33BB, 0x6E, 0x8113, 0x74, 0x1738);
    Spell(word, 0x31CC, 4, 0x1738, 0x38, 0x0017, 0x5F, 0xCE4C, 0x74, 0xBD05, 0x20, 0x7612);
    Spelled(word, 0x31CC, 0x7612);
    Unspelled(word, 0xA9B5);
    Spell(word, 0xA9B5, 0, 0xA9B5, 0x75, 0xC6A5, 0x69, 0x0CA6, 0x6E, 0x4A48, 0x74, 0xFBA5);
    Spell(word, 0xA9B5, 4, 0xFBA5, 0x38, 0x4F97, 0x5F, 0x4A0B, 0x74, 0x8B3A, 0x20, 0xBF50);
    Spelled(word, 0xA9B5, 0xBF50);
  }

  lemma TargetSystemSpelled()
    ensures Crc16(Assembler.Ascii("target_system") + [32], 0x2AB8) == 0xF303
  {
    hide Stands, Crc16, Absorb, Step16, Shifts16, BitsOf, Entered, ValueOf;
    Letters();
    var word := Assembler.Ascii("target_system") + [32];
    assert word[0] == 116 && word[1] == 97 && word[2] == 114 && word[3] == 103 && word[4] == 101 && word[5] == 116;
    assert word[6] == 95 && word[7] == 115 && word[8] == 121 && word[9] == 115 && word[10] == 116 && word[11] == 101;
    assert word[12] == 109 && word[13] == 32;
    Unspelled(word, 0x2AB8);
    Spell(word, 0x2AB8, 0, 0x2AB8, 0x74, 0x0C4A, 0x61, 0x9FDD, 0x72, 0x5D62, 0x67, 0x57F0);
    Spell(word, 0x2AB8, 4, 0x57F0, 0x65, 0xC373, 0x74, 0x747C, 0x5F, 0x13ED, 0x73, 0x7DE4);
    Spell(word, 0x2AB8, 8, 0x7DE4, 0x79, 0x4F11, 0x73, 0x405B, 0x74, 0xD9B5, 0x65, 0xD654);
    Letter(word, 0x2AB8, 12, 0xD654, 0x6D, 0xAC94);
    Letter(word, 0x2AB8, 13, 0xAC94, 0x20, 0xF303);
    Spelled(word, 0x2AB8, 0xF303);
  }

  lemma TargetComponentSpelled()
    ensures Crc16(Assembler.Ascii("target_component") + [32], 0x1F13) == 0x7154
  {
    hide Stands, Crc16, Absorb, Step16, Shifts16, BitsOf, Entered, ValueOf;
    Letters();
    var word := Assembler.Ascii("target_component") + [32];
    assert word[0] == 116 && word[1] == 97 && word[2] == 114 && word[3] == 103 && word[4] == 101 && word[5] == 116;
    assert word[6] == 95 && word[7] == 99 && word[8] == 111 && word[9] == 109 && word[10] == 112 && word[11] == 111;
    assert word[12] == 110 && word[13] == 101 && word[14] == 110 && word[15] == 116 && word[16] == 32;
    Unspelled(word, 0x1F13);
    Spell(word, 0x1F13, 0, 0x1F13, 0x74, 0x17A6, 0x61, 0xB2A4, 0x72, 0xB309, 0x67, 0x8ACB);
    Spell(word, 0x1F13, 4, 0x8ACB, 0x65, 0x4CFE, 0x74, 0x2B1E, 0x5F, 0x53A6, 0x63, 0x91F2);
    Spell(word, 0x1F13, 8, 0x91F2, 0x6F, 0x4FFD, 0x6D, 0x94C6, 0x70, 0xD029, 0x6F, 0x27E2);
    Spell(word, 0x1F13, 12, 0x27E2, 0x6E, 0x4E43, 0x65, 0x447A, 0x6E, 0x56E1, 0x74, 0xC372);
    Letter(word, 0x1F13, 16, 0xC372, 0x20, 0x7154);
    Spelled(word, 0x1F13, 0x7154);
  }

  lemma LengthSpelled()
    ensures Crc16(Assembler.Ascii("length") + [32], 0x0C32) == 0x31CC
  {
    hide Stands, Crc16, Absorb, Step16, Shifts16, BitsOf, Entered, ValueOf;
    Letters();
    var word := Assembler.Ascii("length") + [32];
    assert word[0] == 108 && word[1] == 101 && word[2] == 110 && word[3] == 103 && word[4] == 116 && word[5] == 104;
    assert word[6] == 32;
    Unspelled(word, 0x0C32);
    Spell(word, 0x0C32, 0, 0x0C32, 0x6C, 0xBBF7, 0x65, 0xB720, 0x6E, 0xABCD, 0x67, 0x0AFB);
    Letter(word, 0x0C32, 4, 0x0AFB, 0x74, 0x7CF5);
    Letter(word, 0x0C32, 5, 0x7CF5, 0x68, 0x4F10);
    Letter(word, 0x0C32, 6, 0x4F10, 0x20, 0x31CC);
    Spelled(word, 0x0C32, 0x31CC);
  }

  lemma FirstOffsetBegun()
    ensures Stands(Assembler.Ascii("first_message_offset") + [32], 0x7612, 8, 0xF7F9)
  {
    hide Stands, Crc16, Absorb, Step16, Shifts16, BitsOf, Entered, ValueOf;
    Letters();
    var word := Assembler.Ascii("first_message_offset") + [32];
    assert word[0] == 102 && word[1] == 105 && word[2] == 114 && word[3] == 115 && word[4] == 116 && word[5] == 95;
    assert word[6] == 109 && word[7] == 101;
    Unspelled(word, 0x7612);
    Spell(word, 0x7612, 0, 0x7612, 0x66, 0x35D5, 0x69, 0x7FD2, 0x72, 0xA575, 0x73, 0x6593);
    Spell(word, 0x7612, 4, 0x6593, 0x74, 0x93D4, 0x5F, 0x3A48, 0x6D, 0x7695, 0x65, 0xF7F9);
  }

  lemma FirstOffsetSpelled()
    ensures Crc16(Assembler.Ascii("first_message_offset") + [32], 0x7612) == 0xA9B5
  {
    hide Stands, Crc16, Absorb, Step16, Shifts16, BitsOf, Entered, ValueOf;
    Letters();
    var word := Assembler.Ascii("first_message_offset") + [32];
    assert word[8] == 115 && word[9] == 115 && word[10] == 97 && word[11] == 103 && word[12] == 101 && word[13] == 95;
    assert word[14] == 111 && word[15] == 102 && word[16] == 102 && word[17] == 115;
    assert word[18] == 101 && word[19] == 116;
    assert word[20] == 32;
    FirstOffsetBegun();
    Spell(word, 0x7612, 8, 0xF7F9, 0x73, 0x2BA5, 0x73, 0xB390, 0x61, 0xE6B5, 0x67, 0xF579);
    Spell(word, 0x7612, 12, 0xF579, 0x65, 0xDA18, 0x5F, 0x3661, 0x6F, 0xE948, 0x66, 0xC895);
    Spell(word, 0x7612, 16, 0xC895, 0x66, 0xC5DC, 0x73, 0x5D38, 0x65, 0x893D, 0x74, 0xDF4C);
    Letter(word, 0x7612, 20, 0xDF4C, 0x20, 0xA9B5);
    Spelled(word, 0x7612, 0xA9B5);
  }

  lemma DataSpelled()
    ensures Crc16(Assembler.Ascii("data") + [32], 0xBF50) == 0x11CD
  {
    hide Stands, Crc16, Absorb, Step16, Shifts16, BitsOf, Entered, ValueOf;
    Letters();
    var word := Assembler.Ascii("data") + [32];
    assert word[0] == 100 && word[1] == 97 && word[2] == 116 && word[3] == 97 && word[4] == 32;
    Unspelled(word, 0xBF50);
    Spell(word, 0xBF50, 0, 0xBF50, 0x64, 0x7718, 0x61, 0xEE31, 0x74, 0x1547, 0x61, 0x4421);
    Letter(word, 0xBF50, 4, 0x4421, 0x20, 0x11CD);
    Spelled(word, 0xBF50, 0x11CD);
  }

  /** A field absorbed: its type, its name, and its length if it is an array. */
  lemma FieldAbsorbed(fields: seq<WireField>, c: bv16, typed: bv16, named: bv16, counted: bv16)
    requires fields != [] && Crc16(fields[0].kind + [32], c) == typed && Crc16(fields[0].name + [32], typed) == named
    requires counted == if fields[0].count != 0 then Crc16([fields[0].count], named) else named
    ensures ExtraRegister(fields, c) == ExtraRegister(fields[1..], counted)
  {
    hide Crc16;
  }

  lemma CountSpelled()
    ensures Crc16([249], 0x11CD) == 0x77B6
  {
    hide Stands, Crc16, Absorb, Step16, Shifts16, BitsOf, Entered, ValueOf;
    var word: seq<byte> := [249];
    Letters();
    Unspelled(word, 0x11CD);
    Letter(word, 0x11CD, 0, 0x11CD, 0xF9, 0x77B6);
    Spelled(word, 0x11CD, 0x77B6);
  }

  lemma DeclarationSpelled()
    ensures ExtraRegister(Assembler.LoggingFields(), 0xCBBE) == 0x77B6
  {
    hide Crc16, ExtraRegister, Assembler.Ascii;
    var fields := Assembler.LoggingFields();
    WordTypeSpelled();
    SequenceSpelled();
    FieldAbsorbed(fields, 0xCBBE, 0xAD72, 0xF1CA, 0xF1CA);
    ByteTypeSpelled();
    TargetSystemSpelled();
    FieldAbsorbed(fields[1..], 0xF1CA, 0x2AB8, 0xF303, 0xF303);
    TargetComponentSpelled();
    FieldAbsorbed(fields[2..], 0xF303, 0x1F13, 0x7154, 0x7154);
    LengthSpelled();
    FieldAbsorbed(fields[3..], 0x7154, 0x0C32, 0x31CC, 0x31CC);
    FirstOffsetSpelled();
    FieldAbsorbed(fields[4..], 0x31CC, 0x7612, 0xA9B5, 0xA9B5);
    DataSpelled();
    CountSpelled();
    FieldAbsorbed(fields[5..], 0xA9B5, 0xBF50, 0x11CD, 0x77B6);
    NoFields(0x77B6);
    assert fields[5..][1..] == [];
  }

  lemma NoFields(c: bv16)
    ensures ExtraRegister([], c) == c
  {
  }

  lemma DeclarationLength()
    ensures |Declaration(Assembler.LoggingFields())| == 123
  {
    var fields := Assembler.LoggingFields();
    assert |Declaration(fields[5..])| == 14;
    assert |Declaration(fields[4..])| == 43;
    assert |Declaration(fields[3..])| == 58;
    assert |Declaration(fields[2..])| == 83;
    assert |Declaration(fields[1..])| == 105;
  }

  /** The two bytes of a register folded into one. */
  function Folded(crc: bv16): byte {
    ValueOf((((crc & 0xFF) ^ (crc >> 8)) & 0xFF) as bv8)
  }

  lemma BothFolded()
    ensures Folded(0x77B6) == 193 && Folded(0x2C0F) == 35
  {
  }

  lemma XorBack(x: bv16)
    requires Xor(0x77B6, x) == 0x5BB9
    ensures x == 0x2C0F
  {
  }

  /** The derivation reproduces the published value, so the import guard never fires; the other is 35. */
  lemma PublishedExtra()
    ensures Assembler.LoggingCrcExtra(Assembler.LOGGING_DATA) == 193
    ensures Assembler.LoggingCrcExtra(Assembler.LOGGING_DATA_ACKED) == 35
  {
    hide Crc16, ExtraRegister, Declaration, Turns, Xor, Assembler.Ascii, Assembler.LoggingFields;
    var fields := Assembler.LoggingFields();
    NameSpelled();
    AckedNameSpelled();
    DeclarationSpelled();
    ExtraIsCrcOfDeclaration(fields, 0xCBBE);
    ExtraIsCrcOfDeclaration(fields, 0xCC8A);
    DifferenceTurns(Declaration(fields), 0xCBBE, 0xCC8A);
    DeclarationLength();
    NamesDiffer();
    AllTurns();
    XorBack(ExtraRegister(fields, 0xCC8A));
    BothFolded();
  }

  lemma NamesDiffer()
    ensures Xor(0xCBBE, 0xCC8A) == 0x0734
  {
  }

  // ---------------------------------------------------------------- one message never passes for the other

  lemma ExtrasApart()
    ensures Wide(BitsOf(193) ^ BitsOf(35)) == 0x00E2 && Wide(BitsOf(35) ^ BitsOf(193)) == 0x00E2
    ensures BitsOf(10) ^ BitsOf(11) == 1 && BitsOf(11) ^ BitsOf(10) == 1
  {
    hide BitsOf, ValueOf;
    TheirBits();
    BitsFrom(193, 0xC1);
    BitsFrom(35, 0x23);
    BitsFrom(10, 0x0A);
    BitsFrom(11, 0x0B);
  }

  lemma TheirBits()
    ensures ValueOf(0xC1) == 193 && ValueOf(0x23) == 35 && ValueOf(0x0A) == 10 && ValueOf(0x0B) == 11
  {
  }

  lemma BitsFrom(b: byte, bits: bv8)
    requires ValueOf(bits) == b
    ensures BitsOf(b) == bits
  {
    hide BitsOf, ValueOf;
    ValueOfBits(b);
    ValueInjective(BitsOf(b), bits);
  }

  lemma XorSelf(x: bv16)
    ensures Xor(x, x) == 0 && Xor(0, x) == x
  {
  }

  lemma XorZero(x: bv16, y: bv16)
    requires Xor(x, y) == 0
    ensures x == y
  {
  }

  lemma ZeroStays()
    ensures Shifts16(0) == 0
  {
  }

  /** The difference that an identifier byte 10 against 11, and any byte before it, leaves in the register. */
  lemma PairLeaves(c: bv16, a: byte, b: byte, x: byte, y: byte)
    requires BitsOf(x) ^ BitsOf(y) == 1
    ensures Xor(Step16(Step16(c, a), x), Step16(Step16(c, b), y)) == Left(BitsOf(a) ^ BitsOf(b))
  {
    hide Step16, Shifts16, BitsOf, Xor;
    StepDifference(c, c, a, b);
    XorSelf(c);
    XorSelf(Wide(BitsOf(a) ^ BitsOf(b)));
    StepDifference(Step16(c, a), Step16(c, b), x, y);
  }

  /** Two registers that become equal when each takes its own message's byte differed by those two bytes' difference. */
  lemma ExtrasMeet(p: bv16, q: bv16, a: byte, b: byte)
    requires Wide(BitsOf(a) ^ BitsOf(b)) == 0x00E2 && Step16(p, a) == Step16(q, b)
    ensures Xor(p, q) == 0x00E2
  {
    hide Step16, Shifts16, BitsOf, Xor, Wide;
    StepDifference(p, q, a, b);
    XorSelf(Step16(p, a));
    ZeroStays();
    Shifts16Injective(Xor(Xor(p, q), 0x00E2), 0);
    XorZero(Xor(p, q), 0x00E2);
  }

  /**
    * No frame passes under both identifiers: byte strings that differ in the low byte of the identifier, 10 for one
    * message and 11 for the other, and at most in the byte before it, never have each message's own CRC in common.
    */
  lemma NeverMistaken(before: seq<byte>, a: byte, b: byte, x: byte, y: byte, after: seq<byte>, m: nat, n: nat)
    requires {m, n} == {Assembler.LOGGING_DATA, Assembler.LOGGING_DATA_ACKED}
    requires {x, y} == {10, 11} && |after| < 264
    ensures Assembler.FrameCrc(m, before + [a, x] + after) != Assembler.FrameCrc(n, before + [b, y] + after)
  {
    hide Crc16, Step16, BitsOf, Xor, Left, Clear, Turns, Assembler.LoggingCrcExtra;
    PublishedExtra();
    ExtrasApart();
    var c := Crc16(before, 0xFFFF);
    var p, q := Crc16(before + [a, x] + after, 0xFFFF), Crc16(before + [b, y] + after, 0xFFFF);
    Continued(before, a, x, after);
    Continued(before, b, y, after);
    PairLeaves(c, a, b, x, y);
    DifferenceTurns(after, Step16(Step16(c, a), x), Step16(Step16(c, b), y));
    ClearHere();
    NeverLeft(0x00E2, 264, BitsOf(a) ^ BitsOf(b), |after|);
    if Assembler.FrameCrc(m, before + [a, x] + after) == Assembler.FrameCrc(n, before + [b, y] + after) {
      var e, f := Assembler.LoggingCrcExtra(m), Assembler.LoggingCrcExtra(n);
      WordOfInjective(Crc16([e], p), Crc16([f], q));
      OneByte(e, p);
      OneByte(f, q);
      ExtrasMeet(p, q, e, f);
    }
  }

  lemma OneByte(e: byte, p: bv16)
    ensures Crc16([e], p) == Step16(p, e)
  {
    AbsorbsUpToTwo([e], p);
  }

  lemma Continued(before: seq<byte>, a: byte, x: byte, after: seq<byte>)
    ensures Crc16(before + [a, x] + after, 0xFFFF) == Crc16(after, Step16(Step16(Crc16(before, 0xFFFF), a), x))
  {
    hide Step16;
    AbsorbComposes(Step16, before + [a, x], after, 0xFFFF);
    AbsorbComposes(Step16, before, [a, x], 0xFFFF);
    AbsorbsUpToTwo([a, x], Crc16(before, 0xFFFF));
  }
}
