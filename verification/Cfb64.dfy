/** 64-bit cipher feedback over an arbitrary block cipher: the byte-wise streaming state machine in both directions. */
module Cfb64 {
  import opened Arith
  import opened BitXor

  type word32 = x: int | 0 <= x < 0x1_0000_0000

  /** The block cipher as it is applied to a pair of words. */
  type BlockCipher = (word32, word32) -> (word32, word32)

  type Block = b: seq<byte> | |b| == 8 witness [0, 0, 0, 0, 0, 0, 0, 0]

  /** Four bytes as a word, most significant first. */
  function Word(b0: byte, b1: byte, b2: byte, b3: byte): word32 {
    b0 * 0x100_0000 + b1 * 0x1_0000 + b2 * 0x100 + b3
  }

  /** Byte k of a word, byte 0 being the most significant. */
  function ByteOf(w: word32, k: nat): byte
    requires k < 4
  {
    w / (if k == 0 then 0x100_0000 else if k == 1 then 0x1_0000 else if k == 2 then 0x100 else 1) % 256
  }

  /** The feedback register put through the cipher. */
  function Refilled(cipher: BlockCipher, iv: Block): Block {
    var (t0, t1) := cipher(Word(iv[0], iv[1], iv[2], iv[3]), Word(iv[4], iv[5], iv[6], iv[7]));
    [ByteOf(t0, 0), ByteOf(t0, 1), ByteOf(t0, 2), ByteOf(t0, 3), ByteOf(t1, 0), ByteOf(t1, 1), ByteOf(t1, 2),
     ByteOf(t1, 3)]
  }

  /** The register and how much of it has been used. */
  datatype State = State(iv: Block, num: nat) {
    predicate Valid() {
      num < 8
    }
  }

  /** The register with key stream at position num. */
  function Ready(cipher: BlockCipher, s: State): Block
  {
    if s.num == 0 then Refilled(cipher, s.iv) else s.iv
  }

  /** The state after cipher text byte c. */
  function Advance(cipher: BlockCipher, s: State, c: byte): (t: State)
    requires s.Valid()
    ensures t.Valid()
  {
    State(Ready(cipher, s)[s.num := c], (s.num + 1) % 8)
  }

  function EncryptByte(cipher: BlockCipher, s: State, p: byte): byte
    requires s.Valid()
  {
    ByteXor(p, Ready(cipher, s)[s.num])
  }

  function DecryptByte(cipher: BlockCipher, s: State, c: byte): byte
    requires s.Valid()
  {
    ByteXor(Ready(cipher, s)[s.num], c)
  }

  /** The cipher text of a message. */
  function Encrypted(cipher: BlockCipher, s: State, message: seq<byte>): (text: seq<byte>)
    requires s.Valid()
    ensures |text| == |message|
    decreases |message|
  {
    if message == [] then []
    else
      var c := EncryptByte(cipher, s, message[0]);
      [c] + Encrypted(cipher, Advance(cipher, s, c), message[1..])
  }

  function Decrypted(cipher: BlockCipher, s: State, text: seq<byte>): (message: seq<byte>)
    requires s.Valid()
    ensures |message| == |text|
    decreases |text|
  {
    if text == [] then []
    else [DecryptByte(cipher, s, text[0])] + Decrypted(cipher, Advance(cipher, s, text[0]), text[1..])
  }

  /** The state after a cipher text, which is all that either side feeds back. */
  function After(cipher: BlockCipher, s: State, text: seq<byte>): (t: State)
    requires s.Valid()
    ensures t.Valid()
    decreases |text|
  {
    if text == [] then s else After(cipher, Advance(cipher, s, text[0]), text[1..])
  }

  /** Decryption from the same state undoes encryption; both sides then stand in the same state. */
  lemma {:induction false} DecryptionUndoesEncryption(cipher: BlockCipher, s: State, message: seq<byte>)
    requires s.Valid()
    ensures Decrypted(cipher, s, Encrypted(cipher, s, message)) == message
    decreases |message|
  {
    if message != [] {
      var c := EncryptByte(cipher, s, message[0]);
      var t := Advance(cipher, s, c);
      var rest := Encrypted(cipher, t, message[1..]);
      hide Advance, Ready, ByteXor;
      DecryptionUndoesEncryption(cipher, t, message[1..]);
      ByteXorCancels(Ready(cipher, s)[s.num], message[0]);
      assert ([c] + rest)[1..] == rest;
    }
  }

  lemma {:induction false} AfterTogether(cipher: BlockCipher, s: State, a: seq<byte>, b: seq<byte>)
    requires s.Valid()
    ensures After(cipher, s, a + b) == After(cipher, After(cipher, s, a), b)
    decreases |a|
  {
    hide Advance;
    if a == [] {
      assert a + b == b;
    } else {
      assert (a + b)[1..] == a[1..] + b;
      AfterTogether(cipher, Advance(cipher, s, a[0]), a[1..], b);
    }
  }

  /** A message in two parts: the second part continues from the state the first part leaves. */
  lemma {:induction false} EncryptedTogether(cipher: BlockCipher, s: State, a: seq<byte>, b: seq<byte>)
    requires s.Valid()
    ensures Encrypted(cipher, s, a + b) ==
            Encrypted(cipher, s, a) + Encrypted(cipher, After(cipher, s, Encrypted(cipher, s, a)), b)
    decreases |a|
  {
    hide Advance;
    if a == [] {
      assert a + b == b;
    } else {
      assert (a + b)[1..] == a[1..] + b;
      var c := EncryptByte(cipher, s, a[0]);
      var t := Advance(cipher, s, c);
      EncryptedTogether(cipher, t, a[1..], b);
      assert Encrypted(cipher, s, a)[1..] == Encrypted(cipher, t, a[1..]);
    }
  }

  lemma {:induction false} DecryptedTogether(cipher: BlockCipher, s: State, a: seq<byte>, b: seq<byte>)
    requires s.Valid()
    ensures Decrypted(cipher, s, a + b) == Decrypted(cipher, s, a) + Decrypted(cipher, After(cipher, s, a), b)
    decreases |a|
  {
    hide Advance;
    if a == [] {
      assert a + b == b;
    } else {
      assert (a + b)[1..] == a[1..] + b;
      DecryptedTogether(cipher, Advance(cipher, s, a[0]), a[1..], b);
    }
  }

  lemma {:induction false} AfterLast(cipher: BlockCipher, s: State, text: seq<byte>, c: byte)
    requires s.Valid()
    ensures After(cipher, s, text + [c]) == Advance(cipher, After(cipher, s, text), c)
  {
    AfterTogether(cipher, s, text, [c]);
    hide Advance;
    assert [c][1..] == [];
  }

  /** The key stream r with a text written over it from position num on. */
  function Over(r: Block, num: nat, text: seq<byte>): Block
    requires num + |text| <= 8
  {
    r[..num] + text + r[num + |text|..]
  }

  lemma ReadyInside(cipher: BlockCipher, s: State)
    requires s.num != 0
    ensures Ready(cipher, s) == s.iv
  {
  }

  lemma OverNothing(r: Block, num: nat)
    requires num <= 8
    ensures Over(r, num, []) == r
  {
  }

  lemma OverOneMore(r: Block, num: nat, text: seq<byte>, c: byte)
    requires num + |text| < 8
    ensures Over(r, num, text)[num + |text| := c] == Over(r, num, text + [c])
  {
  }

  /** Inside one block the cipher text takes the place of the key stream, byte by byte. */
  lemma {:induction false} WithinBlock(cipher: BlockCipher, s: State, text: seq<byte>)
    requires s.Valid() && 0 < |text| && s.num + |text| <= 8
    ensures After(cipher, s, text) == State(Over(Ready(cipher, s), s.num, text), (s.num + |text|) % 8)
    decreases |text|
  {
    hide Ready, Over, After;
    var (k, r) := (|text| - 1, Ready(cipher, s));
    var (first, c) := (text[..k], text[k]);
    assert text == first + [c];
    AfterLast(cipher, s, first, c);
    OverOneMore(r, s.num, first, c);
    if k == 0 {
      OverNothing(r, s.num);
      AfterNothing(cipher, s);
    } else {
      WithinBlock(cipher, s, first);
      ReadyInside(cipher, After(cipher, s, first));
    }
  }

  lemma AfterNothing(cipher: BlockCipher, s: State)
    requires s.Valid()
    ensures After(cipher, s, []) == s
  {
  }

  /** After a whole block the register holds its cipher text. */
  lemma WholeBlock(cipher: BlockCipher, s: State, text: seq<byte>)
    requires s.num == 0 && |text| == 8
    ensures After(cipher, s, text) == State(text, 0)
  {
    WithinBlock(cipher, s, text);
    hide After, Ready;
    assert Over(Ready(cipher, s), 0, text) == text;
  }

  /** The key stream of a block is the same through the block. */
  lemma KeyStream(cipher: BlockCipher, s: State, part: seq<byte>)
    requires s.num == 0 && |part| < 8
    ensures var t := After(cipher, s, part);
            t.num == |part| && Ready(cipher, t)[t.num] == Refilled(cipher, s.iv)[|part|]
  {
    hide Refilled;
    var (n, r) := (|part|, Refilled(cipher, s.iv));
    assert Ready(cipher, s) == r;
    if part == [] {
      assert After(cipher, s, part) == s;
    } else {
      hide Ready;
      WithinBlock(cipher, s, part);
      hide After;
      ReadyInside(cipher, After(cipher, s, part));
      assert Over(r, 0, part)[n] == r[n];
    }
  }

  /** The register that block b is enciphered from: the initial one, and then the cipher text of the block before. */
  function Register(s: State, text: seq<byte>, b: nat): Block
    requires 8 * b <= |text|
  {
    if b == 0 then s.iv else text[8 * b - 8..8 * b]
  }

  /** After each whole block the register holds the cipher text of that block. */
  lemma {:induction false} AfterBlocks(cipher: BlockCipher, s: State, text: seq<byte>, b: nat)
    requires s.num == 0 && 8 * b <= |text|
    ensures After(cipher, s, text[..8 * b]) == State(Register(s, text, b), 0)
  {
    if b > 0 {
      AfterBlocks(cipher, s, text, b - 1);
      hide After;
      var (done, block) := (text[..8 * b - 8], text[8 * b - 8..8 * b]);
      assert text[..8 * b] == done + block;
      AfterTogether(cipher, s, done, block);
      WholeBlock(cipher, State(Register(s, text, b - 1), 0), block);
    }
  }

  /** One byte of cipher text: the message byte plus the key stream of the state the cipher text before it leaves. */
  lemma EncryptedAt(cipher: BlockCipher, s: State, message: seq<byte>, i: nat)
    requires s.Valid() && i < |message|
    ensures var text := Encrypted(cipher, s, message);
            text[i] == EncryptByte(cipher, After(cipher, s, text[..i]), message[i])
  {
    assert message == message[..i] + message[i..];
    EncryptedTogether(cipher, s, message[..i], message[i..]);
  }

  /** Cipher feedback: byte k of block b is the message byte plus byte k of the enciphered register, which is the
    * cipher text of the block before. Section 6.3 of NIST SP 800-38A, with segments of a whole block. */
  lemma CipherFeedback(cipher: BlockCipher, s: State, message: seq<byte>, b: nat, k: nat)
    requires s.num == 0 && k < 8 && 8 * b + k < |message|
    ensures var (text, i) := (Encrypted(cipher, s, message), 8 * b + k);
            text[i] == ByteXor(message[i], Refilled(cipher, Register(s, text, b))[k])
  {
    hide Encrypted, Refilled, ByteXor, After, Ready, Register;
    var (text, i) := (Encrypted(cipher, s, message), 8 * b + k);
    EncryptedAt(cipher, s, message, i);
    KeyStreamAt(cipher, s, text, b, k);
  }

  /** The key stream byte k of block b. */
  lemma KeyStreamAt(cipher: BlockCipher, s: State, text: seq<byte>, b: nat, k: nat)
    requires s.num == 0 && k < 8 && 8 * b + k <= |text|
    ensures var t := After(cipher, s, text[..8 * b + k]);
            t.num == k && Ready(cipher, t)[k] == Refilled(cipher, Register(s, text, b))[k]
  {
    hide Refilled, After, Ready, Register;
    var i := 8 * b + k;
    AfterBlocks(cipher, s, text, b);
    var (start, part, reg) := (text[..8 * b], text[8 * b..i], Register(s, text, b));
    assert text[..i] == start + part;
    AfterTogether(cipher, s, start, part);
    KeyStream(cipher, State(reg, 0), part);
  }

  /** The number that bytes spell, most significant first. */
  function BigEndian(b: seq<byte>): nat {
    if b == [] then 0 else 256 * BigEndian(b[..|b| - 1]) + b[|b| - 1]
  }

  /** The register is read and written as two words, most significant byte first. */
  lemma RefilledIsBigEndian(cipher: BlockCipher, iv: Block)
    ensures BigEndian(iv[..4]) < 0x1_0000_0000 && BigEndian(iv[4..]) < 0x1_0000_0000
    ensures var (t, r) := (cipher(BigEndian(iv[..4]), BigEndian(iv[4..])), Refilled(cipher, iv));
            BigEndian(r[..4]) == t.0 && BigEndian(r[4..]) == t.1
  {
    var (t, r) := (cipher(Word(iv[0], iv[1], iv[2], iv[3]), Word(iv[4], iv[5], iv[6], iv[7])), Refilled(cipher, iv));
    BigEndianIsWord(iv[..4]);
    BigEndianIsWord(iv[4..]);
    BigEndianIsWord(r[..4]);
    BigEndianIsWord(r[4..]);
    WordOfBytes(t.0);
    WordOfBytes(t.1);
    hide Word, ByteOf, BigEndian;
  }

  lemma BigEndianIsWord(b: seq<byte>)
    requires |b| == 4
    ensures BigEndian(b) == Word(b[0], b[1], b[2], b[3])
  {
    var (one, two, three) := (b[..1], b[..2], b[..3]);
    assert three[..2] == two && two[..1] == one && one[..0] == [];
    assert BigEndian(one) == b[0];
    assert BigEndian(two) == 256 * BigEndian(one) + b[1];
    assert BigEndian(three) == 256 * BigEndian(two) + b[2];
  }

  lemma WordOfBytes(w: word32)
    ensures Word(ByteOf(w, 0), ByteOf(w, 1), ByteOf(w, 2), ByteOf(w, 3)) == w
  {
    var (x, y, z) := (w / 0x100, w / 0x1_0000, w / 0x100_0000);
    assert y == x / 0x100 && z == y / 0x100 && z < 256;
    assert ByteOf(w, 0) == z && ByteOf(w, 1) == y % 256 && ByteOf(w, 2) == x % 256 && ByteOf(w, 3) == w % 256;
    hide ByteOf;
  }

  function Joined(chunks: seq<seq<byte>>): seq<byte> {
    if chunks == [] then [] else chunks[0] + Joined(chunks[1..])
  }

  /** A message encrypted chunk by chunk, the state carried from call to call. */
  function EncryptedChunks(cipher: BlockCipher, s: State, chunks: seq<seq<byte>>): seq<seq<byte>>
    requires s.Valid()
    decreases |chunks|
  {
    if chunks == [] then []
    else
      var text := Encrypted(cipher, s, chunks[0]);
      [text] + EncryptedChunks(cipher, After(cipher, s, text), chunks[1..])
  }

  function DecryptedChunks(cipher: BlockCipher, s: State, chunks: seq<seq<byte>>): seq<seq<byte>>
    requires s.Valid()
    decreases |chunks|
  {
    if chunks == [] then []
    else [Decrypted(cipher, s, chunks[0])] + DecryptedChunks(cipher, After(cipher, s, chunks[0]), chunks[1..])
  }

  /** The state after a series of calls with the given cipher texts. */
  function AfterChunks(cipher: BlockCipher, s: State, chunks: seq<seq<byte>>): State
    requires s.Valid()
    decreases |chunks|
  {
    if chunks == [] then s else AfterChunks(cipher, After(cipher, s, chunks[0]), chunks[1..])
  }

  lemma JoinedFirst(first: seq<byte>, rest: seq<seq<byte>>)
    ensures Joined([first] + rest) == first + Joined(rest)
  {
    assert ([first] + rest)[1..] == rest;
  }

  lemma {:induction false} EncryptionChunks(cipher: BlockCipher, s: State, chunks: seq<seq<byte>>)
    requires s.Valid()
    ensures Joined(EncryptedChunks(cipher, s, chunks)) == Encrypted(cipher, s, Joined(chunks))
    decreases |chunks|
  {
    if chunks != [] {
      var text := Encrypted(cipher, s, chunks[0]);
      EncryptionChunks(cipher, After(cipher, s, text), chunks[1..]);
      EncryptedTogether(cipher, s, chunks[0], Joined(chunks[1..]));
      JoinedFirst(text, EncryptedChunks(cipher, After(cipher, s, text), chunks[1..]));
    }
  }

  lemma {:induction false} DecryptionChunks(cipher: BlockCipher, s: State, chunks: seq<seq<byte>>)
    requires s.Valid()
    ensures Joined(DecryptedChunks(cipher, s, chunks)) == Decrypted(cipher, s, Joined(chunks))
    decreases |chunks|
  {
    if chunks != [] {
      var next := After(cipher, s, chunks[0]);
      DecryptionChunks(cipher, next, chunks[1..]);
      DecryptedTogether(cipher, s, chunks[0], Joined(chunks[1..]));
      JoinedFirst(Decrypted(cipher, s, chunks[0]), DecryptedChunks(cipher, next, chunks[1..]));
    }
  }

  lemma {:induction false} StateChunks(cipher: BlockCipher, s: State, chunks: seq<seq<byte>>)
    requires s.Valid()
    ensures AfterChunks(cipher, s, chunks) == After(cipher, s, Joined(chunks))
    decreases |chunks|
  {
    if chunks != [] {
      StateChunks(cipher, After(cipher, s, chunks[0]), chunks[1..]);
      AfterTogether(cipher, s, chunks[0], Joined(chunks[1..]));
    }
  }

  /** A message sent in any chunks and received in any other chunks of the same cipher text comes back whole, and both
    * sides end with the same register and position. */
  lemma StreamRoundTrip(cipher: BlockCipher, s: State, sent: seq<seq<byte>>, received: seq<seq<byte>>)
    requires s.Valid() && Joined(received) == Joined(EncryptedChunks(cipher, s, sent))
    ensures Joined(DecryptedChunks(cipher, s, received)) == Joined(sent)
    ensures AfterChunks(cipher, s, received) == AfterChunks(cipher, s, EncryptedChunks(cipher, s, sent))
  {
    EncryptionChunks(cipher, s, sent);
    DecryptionChunks(cipher, s, received);
    StateChunks(cipher, s, received);
    StateChunks(cipher, s, EncryptedChunks(cipher, s, sent));
    DecryptionUndoesEncryption(cipher, s, Joined(sent));
  }

  /** The register as an array, refilled in place. */
  method Refill(cipher: BlockCipher, ivec: array<byte>)
    requires ivec.Length == 8
    modifies ivec
    ensures ivec[..] == Refilled(cipher, old(ivec[..]))
  {
    hide Word, ByteOf;
    var (t0, t1) := cipher(Word(ivec[0], ivec[1], ivec[2], ivec[3]), Word(ivec[4], ivec[5], ivec[6], ivec[7]));
    ivec[0], ivec[1], ivec[2], ivec[3] := ByteOf(t0, 0), ByteOf(t0, 1), ByteOf(t0, 2), ByteOf(t0, 3);
    ivec[4], ivec[5], ivec[6], ivec[7] := ByteOf(t1, 0), ByteOf(t1, 1), ByteOf(t1, 2), ByteOf(t1, 3);
  }

  lemma OneMoreEncrypted(cipher: BlockCipher, s: State, data: seq<byte>, p: byte, done: seq<byte>, c: byte, now: State)
    requires s.Valid() && done == Encrypted(cipher, s, data) && now == After(cipher, s, done)
             && c == EncryptByte(cipher, now, p)
    ensures Encrypted(cipher, s, data + [p]) == done + [c] && After(cipher, s, done + [c]) == Advance(cipher, now, c)
  {
    hide Advance, EncryptByte;
    EncryptedTogether(cipher, s, data, [p]);
    AfterTogether(cipher, s, done, [c]);
    assert [p][1..] == [] && [c][1..] == [];
  }

  lemma OneMoreDecrypted(cipher: BlockCipher, s: State, data: seq<byte>, c: byte, now: State)
    requires s.Valid() && now == After(cipher, s, data)
    ensures Decrypted(cipher, s, data + [c]) == Decrypted(cipher, s, data) + [DecryptByte(cipher, now, c)]
    ensures After(cipher, s, data + [c]) == Advance(cipher, now, c)
  {
    hide Advance, DecryptByte;
    DecryptedTogether(cipher, s, data, [c]);
    AfterTogether(cipher, s, data, [c]);
    assert [c][1..] == [];
  }

  /** One turn of the encrypting loop. */
  method EncryptStep(cipher: BlockCipher, ivec: array<byte>, n: nat, p: byte) returns (c: byte, n': nat)
    requires ivec.Length == 8 && n < 8
    modifies ivec
    ensures var s := State(old(ivec[..]), n);
            c == EncryptByte(cipher, s, p) && State(ivec[..], n') == Advance(cipher, s, c)
  {
    hide ByteXor, Refilled;
    if n == 0 {
      Refill(cipher, ivec);
    }
    c := ByteXor(p, ivec[n]);
    ivec[n] := c;
    n' := (n + 1) % 8;
  }

  /** One turn of the decrypting loop. */
  method DecryptStep(cipher: BlockCipher, ivec: array<byte>, n: nat, cc: byte) returns (p: byte, n': nat)
    requires ivec.Length == 8 && n < 8
    modifies ivec
    ensures var s := State(old(ivec[..]), n);
            p == DecryptByte(cipher, s, cc) && State(ivec[..], n') == Advance(cipher, s, cc)
  {
    hide ByteXor, Refilled;
    if n == 0 {
      Refill(cipher, ivec);
    }
    var c := ivec[n];
    ivec[n] := cc;
    p := ByteXor(c, cc);
    n' := (n + 1) % 8;
  }

  /** The first l bytes are done, the rest of the input is still to come. */
  ghost predicate Progress(data: seq<byte>, rest: seq<byte>, input: seq<byte>, output: seq<byte>, goal: seq<byte>,
                           l: nat) {
    && l <= |data| <= |input| && |data| <= |output| && output[|data|..] == rest
    && output[..l] == goal && forall i | l <= i < |data| :: input[i] == data[i]
  }

  lemma NextByte(data: seq<byte>, rest: seq<byte>, input: seq<byte>, output: seq<byte>, goal: seq<byte>, l: nat,
                 x: byte, input': seq<byte>, output': seq<byte>)
    requires Progress(data, rest, input, output, goal, l) && l < |data| <= |output| && output' == output[l := x]
    requires input' == input || (|input| == |output| && input' == input[l := x])
    ensures Progress(data, rest, input', output', goal + [x], l + 1)
    ensures input[l] == data[l] && data[..l + 1] == data[..l] + [data[l]]
  {
    assert output'[..l + 1] == output[..l] + [x];
    assert output'[|data|..] == output[|data|..];
  }

  /** Encrypts length bytes; input and output may be the same buffer. The register is updated in place and the new
    * position is returned. */
  method EncryptBytes(cipher: BlockCipher, input: array<byte>, output: array<byte>, length: nat, ivec: array<byte>,
                      num: nat)
    returns (num': nat)
    requires length <= input.Length && length <= output.Length && ivec.Length == 8 && num < 8
    requires ivec != input && ivec != output
    modifies output, ivec
    ensures var s := State(old(ivec[..]), num);
            && output[..length] == Encrypted(cipher, s, old(input[..length]))
            && State(ivec[..], num') == After(cipher, s, output[..length])
    ensures output[length..] == old(output[length..])
  {
    hide Progress, EncryptByte, Advance;
    ghost var (s, data, rest) := (State(ivec[..], num), input[..length], output[length..]);
    var n: nat, l := num, 0;
    ghost var goal: seq<byte> := [];
    Begin(data, rest, input[..], output[..]);
    while l < length
      invariant l <= length && n < 8 && Progress(data, rest, input[..], output[..], goal, l)
      invariant goal == Encrypted(cipher, s, data[..l]) && State(ivec[..], n) == After(cipher, s, goal)
    {
      ghost var (before, from) := (output[..], input[..]);
      ghost var now := State(ivec[..], n);
      var c;
      c, n := EncryptStep(cipher, ivec, n, input[l]);
      output[l] := c;
      NextByte(data, rest, from, before, goal, l, c, input[..], output[..]);
      OneMoreEncrypted(cipher, s, data[..l], data[l], goal, c, now);
      goal := goal + [c];
      l := l + 1;
    }
    End(data, rest, input[..], output[..], goal);
    num' := n;
  }

  method DecryptBytes(cipher: BlockCipher, input: array<byte>, output: array<byte>, length: nat, ivec: array<byte>,
                      num: nat)
    returns (num': nat)
    requires length <= input.Length && length <= output.Length && ivec.Length == 8 && num < 8
    requires ivec != input && ivec != output
    modifies output, ivec
    ensures var s := State(old(ivec[..]), num);
            && output[..length] == Decrypted(cipher, s, old(input[..length]))
            && State(ivec[..], num') == After(cipher, s, old(input[..length]))
    ensures output[length..] == old(output[length..])
  {
    hide Progress, DecryptByte, Advance;
    ghost var (s, data, rest) := (State(ivec[..], num), input[..length], output[length..]);
    var n: nat, l := num, 0;
    ghost var goal: seq<byte> := [];
    Begin(data, rest, input[..], output[..]);
    while l < length
      invariant l <= length && n < 8 && Progress(data, rest, input[..], output[..], goal, l)
      invariant goal == Decrypted(cipher, s, data[..l]) && State(ivec[..], n) == After(cipher, s, data[..l])
    {
      ghost var (before, from) := (output[..], input[..]);
      ghost var now := State(ivec[..], n);
      var p;
      p, n := DecryptStep(cipher, ivec, n, input[l]);
      output[l] := p;
      NextByte(data, rest, from, before, goal, l, p, input[..], output[..]);
      OneMoreDecrypted(cipher, s, data[..l], data[l], now);
      goal := goal + [p];
      l := l + 1;
    }
    End(data, rest, input[..], output[..], goal);
    num' := n;
  }

  lemma Begin(data: seq<byte>, rest: seq<byte>, input: seq<byte>, output: seq<byte>)
    requires |data| <= |input| && |data| <= |output| && data == input[..|data|] && rest == output[|data|..]
    ensures Progress(data, rest, input, output, [], 0) && data[..0] == []
  {
  }

  lemma End(data: seq<byte>, rest: seq<byte>, input: seq<byte>, output: seq<byte>, goal: seq<byte>)
    requires Progress(data, rest, input, output, goal, |data|)
    ensures |data| <= |output| && output[..|data|] == goal && output[|data|..] == rest && data[..|data|] == data
  {
  }

  /** The source's one entry point for both directions. */
  method BfCfb64Encrypt(cipher: BlockCipher, input: array<byte>, output: array<byte>, length: nat, ivec: array<byte>,
                        num: nat, encrypt: bool) returns (num': nat)
    requires length <= input.Length && length <= output.Length && ivec.Length == 8 && num < 8
    requires ivec != input && ivec != output
    modifies output, ivec
    ensures var (s, data) := (State(old(ivec[..]), num), old(input[..length]));
            && output[..length] == (if encrypt then Encrypted(cipher, s, data) else Decrypted(cipher, s, data))
            && State(ivec[..], num') == After(cipher, s, if encrypt then output[..length] else data)
    ensures output[length..] == old(output[length..])
  {
    hide Encrypted, Decrypted, After;
    if encrypt {
      num' := EncryptBytes(cipher, input, output, length, ivec, num);
    } else {
      num' := DecryptBytes(cipher, input, output, length, ivec, num);
    }
  }
}
