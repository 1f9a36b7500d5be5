/** AES-128 as FIPS 197 specifies it, on values, with the proof that the cipher of section 5.1 and
    the inverse cipher of section 5.3 undo each other under every key. */
module Fips197 {
  import opened AesTables
  import opened Gf256

  /** The state in the order of section 3.4: row r of column c is element r + 4c. */
  type Block = s: seq<bv8> | |s| == 16 witness seq(16, _ => 0)

  // ---- The transformations of one round ----

  function SubBytes(s: Block): Block {
    seq(16, i requires 0 <= i < 16 => AesSbox(s[i]))
  }

  function InvSubBytes(s: Block): Block {
    seq(16, i requires 0 <= i < 16 => AesInvSbox(s[i]))
  }

  /** Section 5.1.2: row r moves r columns to the left. */
  function ShiftRows(s: Block): Block {
    [s[0], s[5], s[10], s[15], s[4], s[9], s[14], s[3], s[8], s[13], s[2], s[7], s[12], s[1], s[6], s[11]]
  }

  function InvShiftRows(s: Block): Block {
    [s[0], s[13], s[10], s[7], s[4], s[1], s[14], s[11], s[8], s[5], s[2], s[15], s[12], s[9], s[6], s[3]]
  }

  /** The formulas of sections 5.1.2 and 5.3.1 for row r and column c. */
  lemma ShiftRowsByFormula(s: Block, r: nat, c: nat)
    requires r < 4 && c < 4
    ensures ShiftRows(s)[r + 4 * c] == s[r + 4 * ((c + r) % 4)]
    ensures InvShiftRows(s)[r + 4 * ((c + r) % 4)] == s[r + 4 * c]
  {
    assert (c + r) % 4 == if c + r < 4 then c + r else c + r - 4;
    if r == 0 {
    } else if r == 1 {
    } else if r == 2 {
    } else {
    }
  }

  /** Column c of the state after sections 5.1.3 and 5.3.3. */
  function MixColumn(s: Block, c: nat): (m: seq<bv8>)
    requires c < 4
    ensures |m| == 4
  {
    var i := 4 * c;
    [Mix(s[i], s[i + 1], s[i + 2], s[i + 3]), Mix(s[i + 1], s[i + 2], s[i + 3], s[i]),
     Mix(s[i + 2], s[i + 3], s[i], s[i + 1]), Mix(s[i + 3], s[i], s[i + 1], s[i + 2])]
  }

  function InvMixColumn(s: Block, c: nat): (m: seq<bv8>)
    requires c < 4
    ensures |m| == 4
  {
    var i := 4 * c;
    [InvMix(s[i], s[i + 1], s[i + 2], s[i + 3]), InvMix(s[i + 1], s[i + 2], s[i + 3], s[i]),
     InvMix(s[i + 2], s[i + 3], s[i], s[i + 1]), InvMix(s[i + 3], s[i], s[i + 1], s[i + 2])]
  }

  function MixColumns(s: Block): Block {
    hide MixColumn;
    MixColumn(s, 0) + MixColumn(s, 1) + MixColumn(s, 2) + MixColumn(s, 3)
  }

  function InvMixColumns(s: Block): Block {
    hide InvMixColumn;
    InvMixColumn(s, 0) + InvMixColumn(s, 1) + InvMixColumn(s, 2) + InvMixColumn(s, 3)
  }

  function AddRoundKey(s: Block, k: Block): Block {
    seq(16, i requires 0 <= i < 16 => Add(s[i], k[i]))
  }

  // ---- The key schedule, section 5.2 ----

  datatype Word = Word(b0: bv8, b1: bv8, b2: bv8, b3: bv8)

  function AddWords(x: Word, y: Word): Word {
    Word(Add(x.b0, y.b0), Add(x.b1, y.b1), Add(x.b2, y.b2), Add(x.b3, y.b3))
  }

  function RotWord(w: Word): Word {
    Word(w.b1, w.b2, w.b3, w.b0)
  }

  function SubWord(w: Word): Word {
    Word(AesSbox(w.b0), AesSbox(w.b1), AesSbox(w.b2), AesSbox(w.b3))
  }

  /** What is added to word i - 4 to give word i, t being word i - 1. */
  function Feedback(t: Word, i: nat): Word
    requires 4 <= i < 44
  {
    if i % 4 == 0 then AddWords(SubWord(RotWord(t)), Word(Rcon(i / 4), 0, 0, 0)) else t
  }

  function KeyWord(key: Block, i: nat): Word
    requires i < 44
  {
    if i < 4 then Word(key[4 * i], key[4 * i + 1], key[4 * i + 2], key[4 * i + 3])
    else AddWords(KeyWord(key, i - 4), Feedback(KeyWord(key, i - 1), i))
  }

  function WordOf(b: seq<bv8>): Word
    requires |b| == 4
  {
    Word(b[0], b[1], b[2], b[3])
  }

  /** Word i of a schedule in bytes. */
  function WordAt(w: seq<bv8>, i: nat): Word
    requires 4 * i + 4 <= |w|
  {
    WordOf(w[4 * i .. 4 * i + 4])
  }

  /** The first n words of w are those of the schedule of key. */
  ghost predicate Scheduled(w: seq<bv8>, key: Block, n: nat)
    requires |w| == 176 && n <= 44
  {
    forall i | 0 <= i < n :: WordAt(w, i) == KeyWord(key, i)
  }

  function Bytes(w: Word): (b: seq<bv8>)
    ensures |b| == 4
  {
    [w.b0, w.b1, w.b2, w.b3]
  }

  function RoundKey(key: Block, r: nat): Block
    requires r <= 10
  {
    Bytes(KeyWord(key, 4 * r)) + Bytes(KeyWord(key, 4 * r + 1)) +
    Bytes(KeyWord(key, 4 * r + 2)) + Bytes(KeyWord(key, 4 * r + 3))
  }

  // ---- The cipher and its inverse ----

  /** The state of section 5.1 after the first AddRoundKey and n of the nine like rounds. */
  function Rounds(s: Block, key: Block, n: nat): Block
    requires n <= 9
  {
    if n == 0 then AddRoundKey(s, RoundKey(key, 0))
    else AddRoundKey(MixColumns(ShiftRows(SubBytes(Rounds(s, key, n - 1)))), RoundKey(key, n))
  }

  lemma FirstRound(s: Block, key: Block)
    ensures Rounds(s, key, 0) == AddRoundKey(s, RoundKey(key, 0))
  {}

  lemma NextRound(s: Block, key: Block, n: nat)
    requires 1 <= n <= 9
    ensures Rounds(s, key, n) == AddRoundKey(MixColumns(ShiftRows(SubBytes(Rounds(s, key, n - 1)))), RoundKey(key, n))
  {}

  function Cipher(s: Block, key: Block): Block {
    AddRoundKey(ShiftRows(SubBytes(Rounds(s, key, 9))), RoundKey(key, 10))
  }

  /** The rounds n, n - 1, ..., 1 of section 5.3. */
  function InvRounds(s: Block, key: Block, n: nat): Block
    requires n <= 9
    decreases n
  {
    if n == 0 then s
    else InvRounds(InvMixColumns(AddRoundKey(InvSubBytes(InvShiftRows(s)), RoundKey(key, n))), key, n - 1)
  }

  function InvCipher(s: Block, key: Block): Block {
    hide InvRounds, RoundKey;
    AddRoundKey(InvSubBytes(InvShiftRows(InvRounds(AddRoundKey(s, RoundKey(key, 10)), key, 9))), RoundKey(key, 0))
  }

  // ---- Each transformation is undone by its inverse ----

  lemma SubBytesInverts(s: Block)
    ensures InvSubBytes(SubBytes(s)) == s
    ensures SubBytes(InvSubBytes(s)) == s
  {
    hide AesSbox, AesInvSbox;
    forall i | 0 <= i < 16
      ensures AesInvSbox(AesSbox(s[i])) == s[i] && AesSbox(AesInvSbox(s[i])) == s[i]
    {
      InvSboxOfSbox(s[i]);
      SboxOfInvSbox(s[i]);
    }
  }

  lemma ShiftRowsInverts(s: Block)
    ensures InvShiftRows(ShiftRows(s)) == s
    ensures ShiftRows(InvShiftRows(s)) == s
  {}

  lemma MixColumnsColumn(s: Block, c: nat)
    requires c < 4
    ensures MixColumns(s)[4 * c .. 4 * c + 4] == MixColumn(s, c)
    ensures InvMixColumns(s)[4 * c .. 4 * c + 4] == InvMixColumn(s, c)
  {
    hide MixColumn, InvMixColumn;
    if c == 0 {
      assert MixColumns(s)[0..4] == MixColumn(s, 0) && InvMixColumns(s)[0..4] == InvMixColumn(s, 0);
    } else if c == 1 {
      assert MixColumns(s)[4..8] == MixColumn(s, 1) && InvMixColumns(s)[4..8] == InvMixColumn(s, 1);
    } else if c == 2 {
      assert MixColumns(s)[8..12] == MixColumn(s, 2) && InvMixColumns(s)[8..12] == InvMixColumn(s, 2);
    } else {
      assert MixColumns(s)[12..16] == MixColumn(s, 3) && InvMixColumns(s)[12..16] == InvMixColumn(s, 3);
    }
  }

  lemma MixColumnInverts(s: Block, c: nat)
    requires c < 4
    ensures InvMixColumn(MixColumns(s), c) == s[4 * c .. 4 * c + 4]
    ensures MixColumn(InvMixColumns(s), c) == s[4 * c .. 4 * c + 4]
  {
    hide Mix, InvMix, MixColumns, InvMixColumns;
    var i := 4 * c;
    MixColumnsColumn(s, c);
    var t, u := MixColumns(s)[i .. i + 4], InvMixColumns(s)[i .. i + 4];
    assert t == [MixColumns(s)[i], MixColumns(s)[i + 1], MixColumns(s)[i + 2], MixColumns(s)[i + 3]];
    assert u == [InvMixColumns(s)[i], InvMixColumns(s)[i + 1], InvMixColumns(s)[i + 2], InvMixColumns(s)[i + 3]];
    MixInverts(s[i], s[i + 1], s[i + 2], s[i + 3]);
    MixInverts(s[i + 1], s[i + 2], s[i + 3], s[i]);
    MixInverts(s[i + 2], s[i + 3], s[i], s[i + 1]);
    MixInverts(s[i + 3], s[i], s[i + 1], s[i + 2]);
  }

  lemma MixColumnsInverts(s: Block)
    ensures InvMixColumns(MixColumns(s)) == s
    ensures MixColumns(InvMixColumns(s)) == s
  {
    hide MixColumn, InvMixColumn;
    MixColumnInverts(s, 0);
    MixColumnInverts(s, 1);
    MixColumnInverts(s, 2);
    MixColumnInverts(s, 3);
    assert s == s[0..4] + s[4..8] + s[8..12] + s[12..16];
  }

  lemma AddRoundKeyInverts(s: Block, k: Block)
    ensures AddRoundKey(AddRoundKey(s, k), k) == s
  {}

  /** A round of section 5.3 undoes the round of section 5.1 with the same key. */
  lemma RoundInverts(s: Block, k: Block)
    ensures InvMixColumns(AddRoundKey(InvSubBytes(InvShiftRows(
              ShiftRows(SubBytes(AddRoundKey(MixColumns(s), k))))), k)) == s
    ensures AddRoundKey(MixColumns(InvMixColumns(AddRoundKey(InvSubBytes(InvShiftRows(s)), k))), k)
         == InvSubBytes(InvShiftRows(s))
  {
    hide SubBytes, InvSubBytes, ShiftRows, InvShiftRows, MixColumns, InvMixColumns, AddRoundKey;
    var t := AddRoundKey(MixColumns(s), k);
    ShiftRowsInverts(SubBytes(t));
    SubBytesInverts(t);
    AddRoundKeyInverts(MixColumns(s), k);
    MixColumnsInverts(s);
    var u := InvSubBytes(InvShiftRows(s));
    MixColumnsInverts(AddRoundKey(u, k));
    AddRoundKeyInverts(u, k);
  }

  lemma {:induction false} InvRoundsOfRounds(s: Block, key: Block, n: nat)
    requires n <= 9
    ensures InvRounds(ShiftRows(SubBytes(Rounds(s, key, n))), key, n)
         == ShiftRows(SubBytes(AddRoundKey(s, RoundKey(key, 0))))
  {
    hide SubBytes, InvSubBytes, ShiftRows, InvShiftRows, MixColumns, InvMixColumns, AddRoundKey, RoundKey;
    if n > 0 {
      RoundInverts(ShiftRows(SubBytes(Rounds(s, key, n - 1))), RoundKey(key, n));
      InvRoundsOfRounds(s, key, n - 1);
    }
  }

  lemma {:induction false} RoundsOfInvRounds(s: Block, t: Block, key: Block, n: nat)
    requires n <= 9
    requires AddRoundKey(s, RoundKey(key, 0)) == InvSubBytes(InvShiftRows(InvRounds(t, key, n)))
    ensures ShiftRows(SubBytes(Rounds(s, key, n))) == t
    decreases n
  {
    hide SubBytes, InvSubBytes, ShiftRows, InvShiftRows, MixColumns, InvMixColumns, AddRoundKey, RoundKey;
    SubBytesInverts(InvShiftRows(t));
    ShiftRowsInverts(t);
    if n > 0 {
      RoundInverts(t, RoundKey(key, n));
      RoundsOfInvRounds(s, InvMixColumns(AddRoundKey(InvSubBytes(InvShiftRows(t)), RoundKey(key, n))), key, n - 1);
    }
  }

  /** Decryption recovers every block under every key. */
  lemma InvCipherOfCipher(s: Block, key: Block)
    ensures InvCipher(Cipher(s, key), key) == s
  {
    hide SubBytes, InvSubBytes, ShiftRows, InvShiftRows, MixColumns, InvMixColumns, AddRoundKey, RoundKey;
    hide Rounds, InvRounds;
    AddRoundKeyInverts(ShiftRows(SubBytes(Rounds(s, key, 9))), RoundKey(key, 10));
    InvRoundsOfRounds(s, key, 9);
    ShiftRowsInverts(SubBytes(AddRoundKey(s, RoundKey(key, 0))));
    SubBytesInverts(AddRoundKey(s, RoundKey(key, 0)));
    AddRoundKeyInverts(s, RoundKey(key, 0));
  }

  /** Every block is the encryption of its decryption, so that a key permutes the blocks. */
  lemma CipherOfInvCipher(t: Block, key: Block)
    ensures Cipher(InvCipher(t, key), key) == t
  {
    hide SubBytes, InvSubBytes, ShiftRows, InvShiftRows, MixColumns, InvMixColumns, AddRoundKey, RoundKey;
    hide Rounds, InvRounds;
    var u := AddRoundKey(t, RoundKey(key, 10));
    var s := InvSubBytes(InvShiftRows(InvRounds(u, key, 9)));
    AddRoundKeyInverts(s, RoundKey(key, 0));
    RoundsOfInvRounds(InvCipher(t, key), u, key, 9);
    AddRoundKeyInverts(t, RoundKey(key, 10));
  }

  // ---- The key schedule ----

  /** Section 5.2: the constant of a round is the next power of x. */
  lemma RconPowers(i: nat)
    requires 1 <= i < 15
    ensures Rcon(1) == 0x01 && Rcon(i + 1) == Xtime(Rcon(i))
  {}

  /** Adding the same word can be cancelled. */
  lemma AddWordsCancel(x: Word, y: Word, z: Word)
    requires AddWords(x, z) == AddWords(y, z)
    ensures x == y
  {}

  predicate SameWords(key: Block, key': Block, i: nat)
    requires i + 4 <= 44
  {
    forall k | i <= k < i + 4 :: KeyWord(key, k) == KeyWord(key', k)
  }

  /** Four consecutive words determine the four one step back. */
  lemma SameWordsBack(key: Block, key': Block, i: nat)
    requires 0 < i && i + 4 <= 44 && SameWords(key, key', i)
    ensures SameWords(key, key', i - 1)
  {
    hide AddWords, Feedback;
    assert KeyWord(key, i + 3) == AddWords(KeyWord(key, i - 1), Feedback(KeyWord(key, i + 2), i + 3));
    assert KeyWord(key', i + 3) == AddWords(KeyWord(key', i - 1), Feedback(KeyWord(key', i + 2), i + 3));
    AddWordsCancel(KeyWord(key, i - 1), KeyWord(key', i - 1), Feedback(KeyWord(key, i + 2), i + 3));
  }

  lemma {:induction false} SameWordsFirst(key: Block, key': Block, i: nat)
    requires i + 4 <= 44 && SameWords(key, key', i)
    ensures SameWords(key, key', 0)
  {
    if i > 0 {
      SameWordsBack(key, key', i);
      SameWordsFirst(key, key', i - 1);
    }
  }

  /** Any one round key determines the key, and with it the whole schedule. */
  lemma RoundKeyDeterminesSchedule(w: seq<bv8>, key: Block, w': seq<bv8>, key': Block, r: nat)
    requires |w| == |w'| == 176 && Scheduled(w, key, 44) && Scheduled(w', key', 44)
    requires r <= 10 && w[16 * r .. 16 * r + 16] == w'[16 * r .. 16 * r + 16]
    ensures key == key' && w == w'
  {
    hide KeyWord;
    forall k | 4 * r <= k < 4 * r + 4
      ensures KeyWord(key, k) == KeyWord(key', k)
    {
      SliceOfSchedule(w, r, 4 * k - 16 * r);
      SliceOfSchedule(w', r, 4 * k - 16 * r);
      assert WordAt(w, k) == WordAt(w', k);
    }
    SameWordsFirst(key, key', 4 * r);
    FirstWords(key, key');
    forall i | 0 <= i < 176
      ensures w[i] == w'[i]
    {
      assert WordAt(w, i / 4) == WordAt(w', i / 4);
      assert i == 4 * (i / 4) + i % 4;
    }
  }

  lemma SliceOfSchedule(w: seq<bv8>, r: nat, o: nat)
    requires |w| == 176 && r <= 10 && o <= 12
    ensures w[16 * r .. 16 * r + 16][o .. o + 4] == w[16 * r + o .. 16 * r + o + 4]
  {}

  lemma FirstWords(key: Block, key': Block)
    requires SameWords(key, key', 0)
    ensures key == key'
  {
    assert KeyWord(key, 0) == KeyWord(key', 0) && KeyWord(key, 1) == KeyWord(key', 1);
    assert KeyWord(key, 2) == KeyWord(key', 2) && KeyWord(key, 3) == KeyWord(key', 3);
    assert key == [key[0], key[1], key[2], key[3], key[4], key[5], key[6], key[7],
                   key[8], key[9], key[10], key[11], key[12], key[13], key[14], key[15]];
    assert key' == [key'[0], key'[1], key'[2], key'[3], key'[4], key'[5], key'[6], key'[7],
                    key'[8], key'[9], key'[10], key'[11], key'[12], key'[13], key'[14], key'[15]];
  }

  /** A round key is a run of sixteen bytes of the schedule. */
  lemma RoundKeyInSchedule(w: seq<bv8>, key: Block, r: nat)
    requires |w| == 176 && Scheduled(w, key, 44) && r <= 10
    ensures w[16 * r .. 16 * r + 16] == RoundKey(key, r)
  {
    hide KeyWord, Bytes, WordAt, Scheduled;
    var k := 4 * r;
    BytesOfWord(w, key, k);
    BytesOfWord(w, key, k + 1);
    BytesOfWord(w, key, k + 2);
    BytesOfWord(w, key, k + 3);
    var i := 16 * r;
    assert w[i .. i + 16] == w[i .. i + 4] + w[i + 4 .. i + 8] + w[i + 8 .. i + 12] + w[i + 12 .. i + 16];
  }

  lemma BytesOfWord(w: seq<bv8>, key: Block, i: nat)
    requires |w| == 176 && Scheduled(w, key, 44) && i < 44
    ensures w[4 * i .. 4 * i + 4] == Bytes(KeyWord(key, i))
  {}

  // ---- The schedule and the cipher byte by byte ----

  /** The power of x with this exponent. */
  function PowerOfX(n: nat): bv8 {
    if n == 0 then 1 else Xtime(PowerOfX(n - 1))
  }

  lemma {:induction false} RconIsPower(i: nat)
    requires 1 <= i < 16
    ensures Rcon(i) == PowerOfX(i - 1)
  {
    hide Xtime;
    if i > 1 {
      RconIsPower(i - 1);
      RconPowers(i - 1);
    } else {
      RconPowers(1);
    }
  }

  /** Byte r of a word after its rotation is the byte after it. */
  lemma RotWordByFormula(w: Word, r: nat)
    requires r < 4
    ensures Bytes(RotWord(w))[r] == Bytes(w)[(r + 1) % 4]
  {}

  /** Section 5.2 for byte r of word n of the schedule: the first four words are the key, and each later
      byte is the one four words back plus the one a word back; at the start of a round key that byte is
      the next one of its word, substituted, and the first byte also gets a power of x. */
  lemma ScheduleByFormula(w: seq<bv8>, key: Block, n: nat, r: nat)
    requires |w| == 176 && Scheduled(w, key, 44) && n < 44 && r < 4
    ensures n < 4 ==> w[4 * n + r] == key[4 * n + r]
    ensures n >= 4 && n % 4 != 0 ==> w[4 * n + r] == Add(w[4 * n - 16 + r], w[4 * n - 4 + r])
    ensures n >= 4 && n % 4 == 0 ==>
            w[4 * n + r] == Add(w[4 * n - 16 + r],
                                Add(AesSbox(w[4 * n - 4 + (r + 1) % 4]), if r == 0 then PowerOfX(n / 4 - 1) else 0))
  {
    hide Scheduled, Feedback, Add, AesSbox, PowerOfX, Rcon, Bytes, AddWords;
    ByteOfSchedule(w, key, n, r);
    if n < 4 {
      KeyBytes(key, n, r);
    } else {
      ByteOfSchedule(w, key, n - 4, r);
      ByteOfSchedule(w, key, n - 1, r);
      ByteOfSchedule(w, key, n - 1, (r + 1) % 4);
      NextKeyByte(key, n, r);
      FeedbackByte(KeyWord(key, n - 1), n, r);
    }
  }

  lemma ByteOfSchedule(w: seq<bv8>, key: Block, n: nat, r: nat)
    requires |w| == 176 && Scheduled(w, key, 44) && n < 44 && r < 4
    ensures w[4 * n + r] == Bytes(KeyWord(key, n))[r]
  {
    hide Scheduled, KeyWord, Bytes;
    BytesOfWord(w, key, n);
    assert w[4 * n .. 4 * n + 4][r] == w[4 * n + r];
  }

  lemma KeyBytes(key: Block, n: nat, r: nat)
    requires n < 4 && r < 4
    ensures Bytes(KeyWord(key, n))[r] == key[4 * n + r]
  {}

  lemma NextKeyByte(key: Block, n: nat, r: nat)
    requires 4 <= n < 44 && r < 4
    ensures Bytes(KeyWord(key, n))[r] == Add(Bytes(KeyWord(key, n - 4))[r], Bytes(Feedback(KeyWord(key, n - 1), n))[r])
  {
    hide Add, Feedback;
  }

  lemma FeedbackByte(t: Word, n: nat, r: nat)
    requires 4 <= n < 44 && r < 4
    ensures Bytes(Feedback(t, n))[r] ==
            if n % 4 == 0 then Add(AesSbox(Bytes(t)[(r + 1) % 4]), if r == 0 then PowerOfX(n / 4 - 1) else 0)
            else Bytes(t)[r]
  {
    hide Add, AesSbox, Rcon, PowerOfX;
    if n % 4 == 0 {
      RconIsPower(n / 4);
    }
  }

  /** Byte r of column c, rows counted cyclically, after the substitution and the shift of the rows. */
  function Moved(t: Block, r: nat, c: nat): bv8
    requires c < 4
  {
    AesSbox(t[r % 4 + 4 * ((c + r % 4) % 4)])
  }

  /** Round n of the cipher, from the states before and after it, in byte r of column c. */
  predicate RoundAt(t: seq<Block>, w: seq<bv8>, n: nat, r: nat, c: nat)
    requires |t| == 11 && |w| == 176 && 1 <= n <= 9 && r < 4 && c < 4
  {
    var u := t[n - 1];
    t[n][r + 4 * c] == Add(Add(Add(Times(0x02, Moved(u, r, c)), Times(0x03, Moved(u, r + 1, c))),
                               Add(Moved(u, r + 2, c), Moved(u, r + 3, c))), w[16 * n + (r + 4 * c)])
  }

  /** The last round has no mixing of columns. */
  predicate LastRoundAt(t: seq<Block>, w: seq<bv8>, r: nat, c: nat)
    requires |t| == 11 && |w| == 176 && r < 4 && c < 4
  {
    t[10][r + 4 * c] == Add(Moved(t[9], r, c), w[160 + (r + 4 * c)])
  }

  lemma SubBytesAt(t: Block, i: nat)
    requires i < 16
    ensures SubBytes(t)[i] == AesSbox(t[i])
  {
    hide AesSbox;
  }

  lemma MovedBytes(t: Block, r: nat, c: nat)
    requires r < 4 && c < 4
    ensures ShiftRows(SubBytes(t))[r + 4 * c] == Moved(t, r, c)
  {
    hide AesSbox, SubBytes, ShiftRows;
    assert r % 4 == r;
    ShiftRowsByFormula(SubBytes(t), r, c);
    SubBytesAt(t, r + 4 * ((c + r) % 4));
  }

  lemma MovedCyclic(t: Block, r: nat, c: nat)
    requires c < 4
    ensures Moved(t, r + 4, c) == Moved(t, r, c)
  {
    hide AesSbox;
    assert (r + 4) % 4 == r % 4;
  }

  lemma MovedColumn(t: Block, c: nat)
    requires c < 4
    ensures var s := ShiftRows(SubBytes(t));
            && s[4 * c] == Moved(t, 0, c) == Moved(t, 4, c) && s[4 * c + 1] == Moved(t, 1, c) == Moved(t, 5, c)
            && s[4 * c + 2] == Moved(t, 2, c) == Moved(t, 6, c) && s[4 * c + 3] == Moved(t, 3, c)
  {
    hide Moved, ShiftRows, SubBytes;
    MovedBytes(t, 0, c);
    MovedBytes(t, 1, c);
    MovedBytes(t, 2, c);
    MovedBytes(t, 3, c);
    MovedCyclic(t, 0, c);
    MovedCyclic(t, 1, c);
    MovedCyclic(t, 2, c);
  }

  lemma MixedByte(s: Block, r: nat, c: nat)
    requires r < 4 && c < 4
    ensures MixColumns(s)[r + 4 * c] == MixColumn(s, c)[r]
  {
    hide MixColumns, MixColumn;
    MixColumnsColumn(s, c);
    assert MixColumns(s)[4 * c .. 4 * c + 4][r] == MixColumns(s)[r + 4 * c];
  }

  lemma MixedColumn(t: Block, r: nat, c: nat)
    requires r < 4 && c < 4
    ensures MixColumns(ShiftRows(SubBytes(t)))[r + 4 * c] ==
            Mix(Moved(t, r, c), Moved(t, r + 1, c), Moved(t, r + 2, c), Moved(t, r + 3, c))
  {
    hide Moved, ShiftRows, SubBytes, MixColumns, Mix;
    MixedByte(ShiftRows(SubBytes(t)), r, c);
    MovedColumn(t, c);
  }

  lemma KeyAdded(u: Block, w: seq<bv8>, key: Block, n: nat, i: nat)
    requires |w| == 176 && Scheduled(w, key, 44) && n <= 10 && i < 16
    ensures AddRoundKey(u, RoundKey(key, n))[i] == Add(u[i], w[16 * n + i])
  {
    hide Scheduled, RoundKey, Add;
    RoundKeyInSchedule(w, key, n);
    assert w[16 * n .. 16 * n + 16][i] == w[16 * n + i];
  }

  /** Section 5.1 byte by byte, from the bytes of the message and of the schedule: the states before and
      after each of the ten rounds. */
  lemma CipherByFormula(m: Block, w: seq<bv8>, key: Block) returns (t: seq<Block>)
    requires |w| == 176 && Scheduled(w, key, 44)
    ensures |t| == 11 && Cipher(m, key) == t[10]
    ensures forall i | 0 <= i < 16 :: t[0][i] == Add(m[i], w[i])
    ensures forall n: nat, r: nat, c: nat | 1 <= n <= 9 && r < 4 && c < 4 :: RoundAt(t, w, n, r, c)
    ensures forall r: nat, c: nat | r < 4 && c < 4 :: LastRoundAt(t, w, r, c)
  {
    hide Scheduled, RoundKey, SubBytes, ShiftRows, MixColumns, AddRoundKey, Add, Times, Moved, Rounds;
    t := [Rounds(m, key, 0), Rounds(m, key, 1), Rounds(m, key, 2), Rounds(m, key, 3), Rounds(m, key, 4),
          Rounds(m, key, 5), Rounds(m, key, 6), Rounds(m, key, 7), Rounds(m, key, 8), Rounds(m, key, 9),
          Cipher(m, key)];
    FirstRound(m, key);
    forall i | 0 <= i < 16
      ensures t[0][i] == Add(m[i], w[i])
    {
      KeyAdded(m, w, key, 0, i);
    }
    forall n: nat, r: nat, c: nat | 1 <= n <= 9 && r < 4 && c < 4
      ensures RoundAt(t, w, n, r, c)
    {
      assert t[n] == Rounds(m, key, n) && t[n - 1] == Rounds(m, key, n - 1);
      NextRound(m, key, n);
      MixedColumn(t[n - 1], r, c);
      KeyAdded(MixColumns(ShiftRows(SubBytes(t[n - 1]))), w, key, n, r + 4 * c);
    }
    forall r: nat, c: nat | r < 4 && c < 4
      ensures LastRoundAt(t, w, r, c)
    {
      MovedBytes(t[9], r, c);
      KeyAdded(ShiftRows(SubBytes(t[9])), w, key, 10, r + 4 * c);
    }
  }
}
