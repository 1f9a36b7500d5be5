/** The software encryption of Lab9/software/lab9_app/main.c, in place on arrays of bytes, proved
    to compute the cipher of FIPS 197. */
module AesEncrypt {
  import opened AesTables
  import opened Gf256
  import Fips197

  // ---- Hexadecimal input ----

  /** The value of a hexadecimal digit; any other character is returned as it is. */
  function CharToHex(c: bv8): bv8 {
    if 0x30 <= c <= 0x39 then c - 0x30
    else if 0x41 <= c <= 0x46 then c - 0x41 + 10
    else if 0x61 <= c <= 0x66 then c - 0x61 + 10
    else c
  }

  function CharsToHex(c1: bv8, c2: bv8): bv8 {
    (CharToHex(c1) << 4) + CharToHex(c2)
  }

  function High(b: bv8): (v: bv8)
    ensures v < 16
  {
    b >> 4
  }

  function Low(b: bv8): (v: bv8)
    ensures v < 16
  {
    b & 0x0F
  }

  /** The digit that printf's %x writes for a value below sixteen, in either case. */
  function HexDigit(v: bv8, upper: bool): bv8
    requires v < 16
  {
    if v < 10 then v + 0x30 else if upper then v - 10 + 0x41 else v - 10 + 0x61
  }

  /** Two digits of either case are read back as the byte they write. */
  lemma CharsToHexReadsDigits(b: bv8, upper1: bool, upper2: bool)
    ensures CharsToHex(HexDigit(High(b), upper1), HexDigit(Low(b), upper2)) == b
  {}

  /** The sixteen bytes that 32 characters write. */
  function Parse(ascii: seq<bv8>): Fips197.Block
    requires |ascii| >= 32
  {
    seq(16, i requires 0 <= i < 16 => CharsToHex(ascii[2 * i], ascii[2 * i + 1]))
  }

  /** The characters that write a block: two digits a byte, the high one first, upper(i) being the case of
      character i. */
  function Text(b: Fips197.Block, upper: nat -> bool): seq<bv8> {
    seq(32, i requires 0 <= i < 32 => HexDigit(if i % 2 == 0 then High(b[i / 2]) else Low(b[i / 2]), upper(i)))
  }

  /** Every block is read from its text, whatever the case of the digits. */
  lemma ParseOfText(b: Fips197.Block, upper: nat -> bool)
    ensures Parse(Text(b, upper)) == b
  {
    hide CharsToHex, HexDigit;
    var text := Text(b, upper);
    forall i: nat | i < 16
      ensures CharsToHex(text[2 * i], text[2 * i + 1]) == b[i]
    {
      CharsToHexReadsDigits(b[i], upper(2 * i), upper(2 * i + 1));
    }
  }

  // ---- Words of the result ----

  function PackWord(b0: bv8, b1: bv8, b2: bv8, b3: bv8): bv32 {
    ((b0 as bv32) << 24) + ((b1 as bv32) << 16) + ((b2 as bv32) << 8) + (b3 as bv32)
  }

  function UnpackByte(w: bv32, j: nat): bv8
    requires j < 4
  {
    var shifted := if j == 0 then w >> 24 else if j == 1 then w >> 16 else if j == 2 then w >> 8 else w;
    (shifted & 0xFF) as bv8
  }

  function Pack(s: Fips197.Block): (ws: seq<bv32>)
    ensures |ws| == 4
  {
    seq(4, i requires 0 <= i < 4 => PackWord(s[4 * i], s[4 * i + 1], s[4 * i + 2], s[4 * i + 3]))
  }

  function Unpack(ws: seq<bv32>): Fips197.Block
    requires |ws| == 4
  {
    seq(16, i requires 0 <= i < 16 => UnpackByte(ws[i / 4], i % 4))
  }

  lemma UnpackWord(b0: bv8, b1: bv8, b2: bv8, b3: bv8)
    ensures UnpackByte(PackWord(b0, b1, b2, b3), 0) == b0
    ensures UnpackByte(PackWord(b0, b1, b2, b3), 1) == b1
    ensures UnpackByte(PackWord(b0, b1, b2, b3), 2) == b2
    ensures UnpackByte(PackWord(b0, b1, b2, b3), 3) == b3
  {}

  lemma UnpackOfPack(s: Fips197.Block)
    ensures Unpack(Pack(s)) == s
  {
    hide Pack, UnpackByte;
    forall i | 0 <= i < 16
      ensures UnpackByte(Pack(s)[i / 4], i % 4) == s[i]
    {
      UnpackedByte(s, i / 4, i % 4);
    }
  }

  lemma UnpackedByte(s: Fips197.Block, c: nat, j: nat)
    requires c < 4 && j < 4
    ensures UnpackByte(Pack(s)[c], j) == s[4 * c + j]
  {
    hide PackWord, UnpackByte;
    UnpackWord(s[4 * c], s[4 * c + 1], s[4 * c + 2], s[4 * c + 3]);
  }

  /** Word c of the result holds the bytes of column c, the first one highest. */
  lemma PackedBytes(s: Fips197.Block, c: nat)
    requires c < 4
    ensures var w := Pack(s)[c];
            && w >> 24 == s[4 * c] as bv32 && (w >> 16) & 0xFF == s[4 * c + 1] as bv32
            && (w >> 8) & 0xFF == s[4 * c + 2] as bv32 && w & 0xFF == s[4 * c + 3] as bv32
  {
    ShiftedBytes(s[4 * c], s[4 * c + 1], s[4 * c + 2], s[4 * c + 3]);
    hide PackWord;
  }

  lemma ShiftedBytes(b0: bv8, b1: bv8, b2: bv8, b3: bv8)
    ensures var w := PackWord(b0, b1, b2, b3);
            && w >> 24 == b0 as bv32 && (w >> 16) & 0xFF == b1 as bv32
            && (w >> 8) & 0xFF == b2 as bv32 && w & 0xFF == b3 as bv32
  {}

  // ---- The transformations, in place ----

  method RotWord(temp: array<bv8>)
    requires temp.Length == 4
    modifies temp
    ensures Fips197.WordOf(temp[..]) == Fips197.RotWord(Fips197.WordOf(old(temp[..])))
  {
    var rotate := temp[0];
    temp[0] := temp[1];
    temp[1] := temp[2];
    temp[2] := temp[3];
    temp[3] := rotate;
  }

  method SubWord(temp: array<bv8>)
    requires temp.Length == 4
    modifies temp
    ensures Fips197.WordOf(temp[..]) == Fips197.SubWord(Fips197.WordOf(old(temp[..])))
  {
    hide AesSbox;
    for i := 0 to 4
      invariant forall k | 0 <= k < i :: temp[k] == AesSbox(old(temp[k]))
      invariant forall k | i <= k < 4 :: temp[k] == old(temp[k])
    {
      temp[i] := AesSbox(temp[i]);
    }
  }

  method SubBytes(state: array<bv8>)
    requires state.Length == 16
    modifies state
    ensures state[..] == Fips197.SubBytes(old(state[..]))
  {
    hide AesSbox;
    for i := 0 to 16
      invariant forall k | 0 <= k < i :: state[k] == AesSbox(old(state[k]))
      invariant forall k | i <= k < 16 :: state[k] == old(state[k])
    {
      state[i] := AesSbox(state[i]);
    }
  }

  method ShiftRows(state: array<bv8>)
    requires state.Length == 16
    modifies state
    ensures state[..] == Fips197.ShiftRows(old(state[..]))
  {
    ghost var s := state[..];
    var temp := new bv8[2];

    temp[0] := state[1];
    state[1] := state[5];
    state[5] := state[9];
    state[9] := state[13];
    state[13] := temp[0];
    ghost var s1 := s[1 := s[5]][5 := s[9]][9 := s[13]][13 := s[1]];
    assert state[..] == s1;

    temp[0] := state[2];
    temp[1] := state[6];
    state[2] := state[10];
    state[6] := state[14];
    state[10] := temp[0];
    state[14] := temp[1];
    ghost var s2 := s1[2 := s1[10]][6 := s1[14]][10 := s1[2]][14 := s1[6]];
    assert state[..] == s2;

    temp[0] := state[15];
    state[15] := state[11];
    state[11] := state[7];
    state[7] := state[3];
    state[3] := temp[0];
    ghost var s3 := s2[15 := s2[11]][11 := s2[7]][7 := s2[3]][3 := s2[15]];
    assert state[..] == s3;
    RowByRow(s, s1, s2, s3);
  }

  lemma RowByRow(s: Fips197.Block, s1: Fips197.Block, s2: Fips197.Block, s3: Fips197.Block)
    requires s1 == s[1 := s[5]][5 := s[9]][9 := s[13]][13 := s[1]]
    requires s2 == s1[2 := s1[10]][6 := s1[14]][10 := s1[2]][14 := s1[6]]
    requires s3 == s2[15 := s2[11]][11 := s2[7]][7 := s2[3]][3 := s2[15]]
    ensures s3 == Fips197.ShiftRows(s)
  {}

  /** The four right-hand sides in the loop of MixColumns, for a column a, b, c, d. */
  function Entry0(a: bv8, b: bv8, c: bv8, d: bv8): bv8 {
    GfMul(a, 0) ^ GfMul(b, 1) ^ c ^ d
  }

  function Entry1(a: bv8, b: bv8, c: bv8, d: bv8): bv8 {
    a ^ GfMul(b, 0) ^ GfMul(c, 1) ^ d
  }

  function Entry2(a: bv8, b: bv8, c: bv8, d: bv8): bv8 {
    a ^ b ^ GfMul(c, 0) ^ GfMul(d, 1)
  }

  function Entry3(a: bv8, b: bv8, c: bv8, d: bv8): bv8 {
    GfMul(a, 1) ^ b ^ c ^ GfMul(d, 0)
  }

  method MixColumns(state: array<bv8>)
    requires state.Length == 16
    modifies state
    ensures state[..] == Fips197.MixColumns(old(state[..]))
  {
    hide Entry0, Entry1, Entry2, Entry3, Fips197.MixColumn;
    var temp := new bv8[16];
    for i := 0 to 16
      invariant forall k | 0 <= k < i :: temp[k] == state[k]
      invariant state[..] == old(state[..])
    {
      temp[i] := state[i];
    }
    ghost var s := temp[..];
    assert s == old(state[..]);
    for i := 0 to 4
      invariant temp[..] == s
      invariant forall c | 0 <= c < i :: state[4 * c .. 4 * c + 4] == Fips197.MixColumn(s, c)
    {
      ghost var done, m := state[..], Fips197.MixColumn(s, i);
      MixedColumn(s, i);
      state[4 * i] := Entry0(temp[i * 4], temp[i * 4 + 1], temp[i * 4 + 2], temp[i * 4 + 3]);
      state[4 * i + 1] := Entry1(temp[i * 4], temp[i * 4 + 1], temp[i * 4 + 2], temp[i * 4 + 3]);
      state[4 * i + 2] := Entry2(temp[i * 4], temp[i * 4 + 1], temp[i * 4 + 2], temp[i * 4 + 3]);
      state[4 * i + 3] := Entry3(temp[i * 4], temp[i * 4 + 1], temp[i * 4 + 2], temp[i * 4 + 3]);
      assert state[..] == done[4 * i := m[0]][4 * i + 1 := m[1]][4 * i + 2 := m[2]][4 * i + 3 := m[3]];
      ColumnWritten(s, done, state[..], i);
    }
    FourColumns(s, state[..]);
  }

  lemma ColumnWritten(s: Fips197.Block, done: Fips197.Block, done': Fips197.Block, i: nat)
    requires i < 4
    requires forall c | 0 <= c < i :: done[4 * c .. 4 * c + 4] == Fips197.MixColumn(s, c)
    requires var m := Fips197.MixColumn(s, i);
             done' == done[4 * i := m[0]][4 * i + 1 := m[1]][4 * i + 2 := m[2]][4 * i + 3 := m[3]]
    ensures forall c | 0 <= c <= i :: done'[4 * c .. 4 * c + 4] == Fips197.MixColumn(s, c)
  {
    hide Fips197.MixColumn;
    forall c | 0 <= c < i
      ensures done'[4 * c .. 4 * c + 4] == done[4 * c .. 4 * c + 4]
    {}
  }

  lemma FourColumns(s: Fips197.Block, t: Fips197.Block)
    requires forall c | 0 <= c < 4 :: t[4 * c .. 4 * c + 4] == Fips197.MixColumn(s, c)
    ensures t == Fips197.MixColumns(s)
  {}

  /** What the loop computes from lookups is column i of section 5.1.3. */
  lemma MixedColumn(s: Fips197.Block, i: nat)
    requires i < 4
    ensures var a, b, c, d := s[i * 4], s[i * 4 + 1], s[i * 4 + 2], s[i * 4 + 3];
            Fips197.MixColumn(s, i) == [Entry0(a, b, c, d), Entry1(a, b, c, d), Entry2(a, b, c, d), Entry3(a, b, c, d)]
  {
    hide Entry0, Entry1, Entry2, Entry3, Mix;
    var a, b, c, d := s[i * 4], s[i * 4 + 1], s[i * 4 + 2], s[i * 4 + 3];
    Entry0ByTable(a, b, c, d);
    Entry1ByTable(a, b, c, d);
    Entry2ByTable(a, b, c, d);
    Entry3ByTable(a, b, c, d);
  }

  lemma Entry0ByTable(a: bv8, b: bv8, c: bv8, d: bv8)
    ensures Entry0(a, b, c, d) == Mix(a, b, c, d)
  {
    hide GfMul, Times;
    GfMulIsMultiplication(a);
    GfMulIsMultiplication(b);
    Reorder(GfMul(a, 0), GfMul(b, 1), c, d);
  }

  lemma Entry1ByTable(a: bv8, b: bv8, c: bv8, d: bv8)
    ensures Entry1(a, b, c, d) == Mix(b, c, d, a)
  {
    hide GfMul, Times;
    GfMulIsMultiplication(b);
    GfMulIsMultiplication(c);
    Reorder(GfMul(b, 0), GfMul(c, 1), d, a);
  }

  lemma Entry2ByTable(a: bv8, b: bv8, c: bv8, d: bv8)
    ensures Entry2(a, b, c, d) == Mix(c, d, a, b)
  {
    hide GfMul, Times;
    GfMulIsMultiplication(c);
    GfMulIsMultiplication(d);
    Reorder(GfMul(c, 0), GfMul(d, 1), a, b);
  }

  lemma Entry3ByTable(a: bv8, b: bv8, c: bv8, d: bv8)
    ensures Entry3(a, b, c, d) == Mix(d, a, b, c)
  {
    hide GfMul, Times;
    GfMulIsMultiplication(d);
    GfMulIsMultiplication(a);
    Reorder(GfMul(d, 0), GfMul(a, 1), b, c);
  }

  lemma Reorder(p: bv8, q: bv8, r: bv8, s: bv8)
    ensures p ^ q ^ r ^ s == Add(Add(p, q), Add(r, s))
    ensures s ^ p ^ q ^ r == Add(Add(p, q), Add(r, s))
    ensures r ^ s ^ p ^ q == Add(Add(p, q), Add(r, s))
    ensures q ^ r ^ s ^ p == Add(Add(p, q), Add(r, s))
  {}

  method AddRoundKey(state: array<bv8>, keySchedule: array<bv8>, start: nat)
    requires state.Length == 16 && start + 16 <= keySchedule.Length && state != keySchedule
    modifies state
    ensures state[..] == Fips197.AddRoundKey(old(state[..]), keySchedule[start .. start + 16])
  {
    for i := 0 to 16
      invariant forall k | 0 <= k < i :: state[k] == Add(old(state[k]), keySchedule[k + start])
      invariant forall k | i <= k < 16 :: state[k] == old(state[k])
    {
      state[i] := Add(state[i], keySchedule[i + start]);
    }
  }

  // ---- The key schedule ----

  /** The body of the conditional of KeyExpansion. */
  method RotateAndSubstitute(temp: array<bv8>, round: nat)
    requires temp.Length == 4 && round < 16
    modifies temp
    ensures Fips197.WordOf(temp[..]) ==
            ConstantAdded(Fips197.SubWord(Fips197.RotWord(Fips197.WordOf(old(temp[..])))), round)
  {
    hide Fips197.SubWord, Add, Rcon;
    RotWord(temp);
    SubWord(temp);

    temp[0] := Add(temp[0], Rcon(round));
    temp[1] := Add(temp[1], Rcon(0));
    temp[2] := Add(temp[2], Rcon(0));
    temp[3] := Add(temp[3], Rcon(0));
  }

  function ConstantAdded(u: Fips197.Word, round: nat): Fips197.Word
    requires round < 16
  {
    Fips197.Word(Add(u.b0, Rcon(round)), Add(u.b1, Rcon(0)), Add(u.b2, Rcon(0)), Add(u.b3, Rcon(0)))
  }

  /** One pass of the second loop of KeyExpansion, word n of the schedule. */
  method ExpandWord(keySchedule: array<bv8>, temp: array<bv8>, i: nat, ghost n: nat, ghost k: Fips197.Block)
    requires temp.Length == 4 && keySchedule.Length == 176 && temp != keySchedule
    requires 4 <= n < 44 && i == 4 * n && Fips197.Scheduled(keySchedule[..], k, n)
    modifies keySchedule, temp
    ensures Fips197.Scheduled(keySchedule[..], k, n + 1)
  {
    hide Fips197.KeyWord, Fips197.Feedback, Fips197.Scheduled, ConstantAdded, Add;
    ghost var w := keySchedule[..];
    LastWord(w, k, n);
    temp[0] := keySchedule[i - 4];
    temp[1] := keySchedule[i - 3];
    temp[2] := keySchedule[i - 2];
    temp[3] := keySchedule[i - 1];
    ghost var t := Fips197.WordOf(temp[..]);
    if i % 16 == 0 {
      RotateAndSubstitute(temp, i / 16);
    }
    FeedbackComputed(t, n);
    ghost var f := Fips197.WordOf(temp[..]);
    keySchedule[i + 3] := Add(keySchedule[i - 13], temp[3]);
    keySchedule[i + 2] := Add(keySchedule[i - 14], temp[2]);
    keySchedule[i + 1] := Add(keySchedule[i - 15], temp[1]);
    keySchedule[i] := Add(keySchedule[i - 16], temp[0]);
    assert keySchedule[..] == StoreWord(w, i, f);
    NextWord(w, k, n, f);
  }

  method KeyExpansion(key: array<bv8>, keySchedule: array<bv8>)
    requires key.Length == 16 && keySchedule.Length == 176 && key != keySchedule
    modifies keySchedule
    ensures Fips197.Scheduled(keySchedule[..], key[..], 44)
  {
    hide Fips197.KeyWord, Fips197.Scheduled;
    var temp := new bv8[4];
    ghost var k := key[..];

    var i := 0;
    while i < 16
      invariant 0 <= i <= 16 && key[..] == k
      invariant forall j | 0 <= j < i :: keySchedule[j] == k[j]
    {
      keySchedule[i] := key[i];
      i := i + 1;
    }
    FirstWords(keySchedule[..], k);

    i := 16;
    ghost var n := 4;
    while i < 176
      invariant 16 <= i <= 176 && i == 4 * n && key[..] == k
      invariant Fips197.Scheduled(keySchedule[..], k, n)
    {
      ExpandWord(keySchedule, temp, i, n, k);
      i := i + 4;
      n := n + 1;
    }
  }

  lemma FirstWords(w: seq<bv8>, key: Fips197.Block)
    requires |w| == 176 && forall j | 0 <= j < 16 :: w[j] == key[j]
    ensures Fips197.Scheduled(w, key, 4)
  {}

  lemma LastWord(w: seq<bv8>, key: Fips197.Block, n: nat)
    requires |w| == 176 && 4 <= n < 44 && Fips197.Scheduled(w, key, n)
    ensures Fips197.KeyWord(key, n - 1) == Fips197.Word(w[4 * n - 4], w[4 * n - 3], w[4 * n - 2], w[4 * n - 1])
  {}

  /** Section 5.2, byte by byte; rcon[0] is zero. */
  lemma FeedbackComputed(t: Fips197.Word, n: nat)
    requires 4 <= n < 44
    ensures Fips197.Feedback(t, n) ==
            if n % 4 != 0 then t else ConstantAdded(Fips197.SubWord(Fips197.RotWord(t)), n / 4)
  {}

  /** The four stores of one pass, to the bytes o to o + 3 of the schedule. */
  function StoreWord(w: seq<bv8>, o: nat, f: Fips197.Word): seq<bv8>
    requires 16 <= o && o + 4 <= |w|
  {
    w[o + 3 := Add(w[o - 13], f.b3)][o + 2 := Add(w[o - 14], f.b2)]
     [o + 1 := Add(w[o - 15], f.b1)][o := Add(w[o - 16], f.b0)]
  }

  lemma StoresOneWord(w: seq<bv8>, o: nat, f: Fips197.Word)
    requires 16 <= o && o + 4 <= |w|
    ensures var w' := StoreWord(w, o, f);
            && |w'| == |w| && w'[..o] == w[..o]
            && Fips197.WordOf(w'[o .. o + 4]) == Fips197.AddWords(Fips197.WordOf(w[o - 16 .. o - 12]), f)
  {
    hide Add;
  }

  lemma EarlierWords(w: seq<bv8>, w': seq<bv8>, n: nat, i: nat)
    requires |w| == |w'| == 176 && i < n < 44 && w'[..4 * n] == w[..4 * n]
    ensures Fips197.WordAt(w', i) == Fips197.WordAt(w, i)
  {
    assert w'[4 * i .. 4 * i + 4] == w'[..4 * n][4 * i .. 4 * i + 4] == w[4 * i .. 4 * i + 4];
  }

  lemma NextWord(w: seq<bv8>, key: Fips197.Block, n: nat, f: Fips197.Word)
    requires |w| == 176 && 4 <= n < 44
    requires Fips197.Scheduled(w, key, n) && f == Fips197.Feedback(Fips197.KeyWord(key, n - 1), n)
    ensures |StoreWord(w, 4 * n, f)| == 176 && Fips197.Scheduled(StoreWord(w, 4 * n, f), key, n + 1)
  {
    hide Fips197.KeyWord, Fips197.WordAt, StoreWord;
    var w' := StoreWord(w, 4 * n, f);
    StoresOneWord(w, 4 * n, f);
    forall i | 0 <= i < n
      ensures Fips197.WordAt(w', i) == Fips197.KeyWord(key, i)
    {
      EarlierWords(w, w', n, i);
    }
    NewWord(w, key, n, f);
  }

  lemma NewWord(w: seq<bv8>, key: Fips197.Block, n: nat, f: Fips197.Word)
    requires |w| == 176 && 4 <= n < 44 && Fips197.WordAt(w, n - 4) == Fips197.KeyWord(key, n - 4)
    requires f == Fips197.Feedback(Fips197.KeyWord(key, n - 1), n)
    ensures |StoreWord(w, 4 * n, f)| == 176 && Fips197.WordAt(StoreWord(w, 4 * n, f), n) == Fips197.KeyWord(key, n)
  {
    hide Fips197.Feedback, Fips197.AddWords, Fips197.WordOf, StoreWord;
    StoresOneWord(w, 4 * n, f);
  }

  // ---- Encryption ----

  /** The rounds of encrypt, on the state array. */
  method EncryptState(state: array<bv8>, keySchedule: array<bv8>, ghost k: Fips197.Block)
    requires state.Length == 16 && keySchedule.Length == 176 && state != keySchedule
    requires Fips197.Scheduled(keySchedule[..], k, 44)
    modifies state
    ensures state[..] == Fips197.Cipher(old(state[..]), k)
  {
    hide Fips197.Scheduled, Fips197.RoundKey, Fips197.Rounds;
    hide Fips197.SubBytes, Fips197.ShiftRows, Fips197.MixColumns, Fips197.AddRoundKey;
    ghost var m, w := state[..], keySchedule[..];
    Fips197.RoundKeyInSchedule(w, k, 0);
    AddRoundKey(state, keySchedule, 0);
    Fips197.FirstRound(m, k);
    for i := 1 to 10
      invariant keySchedule[..] == w
      invariant state[..] == Fips197.Rounds(m, k, i - 1)
    {
      var placer := 16 * i;
      SubBytes(state);
      ShiftRows(state);
      MixColumns(state);
      Fips197.RoundKeyInSchedule(w, k, i);
      assert keySchedule[placer .. placer + 16] == w[placer .. placer + 16];
      AddRoundKey(state, keySchedule, placer);
      Fips197.NextRound(m, k, i);
    }
    SubBytes(state);
    ShiftRows(state);
    Fips197.RoundKeyInSchedule(w, k, 10);
    assert keySchedule[160 .. 176] == w[160 .. 176];
    AddRoundKey(state, keySchedule, 160);
  }

  /** The first loop of encrypt. */
  method ReadInputs(msgAscii: array<bv8>, keyAscii: array<bv8>, state: array<bv8>, keys: array<bv8>)
    requires msgAscii.Length >= 32 && keyAscii.Length >= 32
    requires state.Length == keys.Length == 16 && state != keys
    requires {msgAscii, keyAscii} !! {state, keys}
    modifies state, keys
    ensures state[..] == Parse(msgAscii[..]) && keys[..] == Parse(keyAscii[..])
  {
    hide CharsToHex;
    for i := 0 to 16
      invariant forall j | 0 <= j < i :: keys[j] == CharsToHex(keyAscii[2 * j], keyAscii[2 * j + 1])
      invariant forall j | 0 <= j < i :: state[j] == CharsToHex(msgAscii[2 * j], msgAscii[2 * j + 1])
    {
      keys[i] := CharsToHex(keyAscii[i * 2], keyAscii[i * 2 + 1]);
      state[i] := CharsToHex(msgAscii[i * 2], msgAscii[i * 2 + 1]);
    }
  }

  /** The first n words are the packed bytes of a block. */
  ghost predicate Packed(ws: seq<bv32>, s: Fips197.Block, n: nat)
    requires n <= 4 && n <= |ws|
  {
    forall j | 0 <= j < n :: ws[j] == PackWord(s[4 * j], s[4 * j + 1], s[4 * j + 2], s[4 * j + 3])
  }

  lemma OneMorePacked(ws: seq<bv32>, s: Fips197.Block, n: nat)
    requires n < 4 == |ws| && Packed(ws, s, n)
    ensures Packed(ws[n := PackWord(s[4 * n], s[4 * n + 1], s[4 * n + 2], s[4 * n + 3])], s, n + 1)
  {}

  lemma AllPacked(ws: seq<bv32>, s: Fips197.Block)
    requires |ws| == 4 && Packed(ws, s, 4)
    ensures ws == Pack(s)
  {
    hide PackWord;
  }

  /** The last loop of encrypt. */
  method StoreWords(state: array<bv8>, keys: array<bv8>, msgEnc: array<bv32>, key: array<bv32>)
    requires state.Length == keys.Length == 16
    requires msgEnc.Length == 4 && key.Length == 4 && msgEnc != key
    modifies msgEnc, key
    ensures msgEnc[..] == Pack(state[..]) && key[..] == Pack(keys[..])
  {
    var i := 0;
    ghost var n := 0;
    ghost var s, k := state[..], keys[..];
    while i < 16
      invariant 0 <= n <= 4 && i == 4 * n
      invariant Packed(key[..], k, n) && Packed(msgEnc[..], s, n)
    {
      hide PackWord, Packed;
      OneMorePacked(key[..], k, n);
      OneMorePacked(msgEnc[..], s, n);
      ghost var key0, enc0 := key[..], msgEnc[..];
      key[i / 4] := PackWord(keys[i], keys[i + 1], keys[i + 2], keys[i + 3]);
      msgEnc[i / 4] := PackWord(state[i], state[i + 1], state[i + 2], state[i + 3]);
      assert key[..] == key0[n := key[n]] && msgEnc[..] == enc0[n := msgEnc[n]];
      i := i + 4;
      n := n + 1;
    }
    AllPacked(key[..], k);
    AllPacked(msgEnc[..], s);
  }

  method Encrypt(msgAscii: array<bv8>, keyAscii: array<bv8>, msgEnc: array<bv32>, key: array<bv32>)
    requires msgAscii.Length >= 32 && keyAscii.Length >= 32
    requires msgEnc.Length == 4 && key.Length == 4 && msgEnc != key
    modifies msgEnc, key
    ensures msgEnc[..] == Pack(Fips197.Cipher(Parse(msgAscii[..]), Parse(keyAscii[..])))
    ensures key[..] == Pack(Parse(keyAscii[..]))
    ensures Fips197.InvCipher(Unpack(msgEnc[..]), Unpack(key[..])) == Parse(msgAscii[..])
  {
    hide Parse, Pack, Unpack, Fips197.Scheduled, Fips197.Cipher, Fips197.InvCipher;
    var keySchedule := new bv8[176];
    var keys := new bv8[16];
    var state := new bv8[16];
    ReadInputs(msgAscii, keyAscii, state, keys);
    KeyExpansion(keys, keySchedule);
    EncryptState(state, keySchedule, keys[..]);
    StoreWords(state, keys, msgEnc, key);
    EncryptedWordsDecrypt(msgAscii[..], keyAscii[..], msgEnc[..], key[..]);
  }

  /** What Encrypt stores can be decrypted from the stored words alone: the inverse cipher of
      section 5.3, under the key words, recovers the message that was parsed, for every pair of
      inputs. */
  lemma EncryptedWordsDecrypt(msgAscii: seq<bv8>, keyAscii: seq<bv8>, msgEnc: seq<bv32>, key: seq<bv32>)
    requires |msgAscii| >= 32 && |keyAscii| >= 32
    requires msgEnc == Pack(Fips197.Cipher(Parse(msgAscii), Parse(keyAscii)))
    requires key == Pack(Parse(keyAscii))
    ensures Fips197.InvCipher(Unpack(msgEnc), Unpack(key)) == Parse(msgAscii)
  {
    hide Parse, Pack, Unpack, Fips197.Cipher, Fips197.InvCipher;
    UnpackOfPack(Fips197.Cipher(Parse(msgAscii), Parse(keyAscii)));
    UnpackOfPack(Parse(keyAscii));
    Fips197.InvCipherOfCipher(Parse(msgAscii), Parse(keyAscii));
  }
}
