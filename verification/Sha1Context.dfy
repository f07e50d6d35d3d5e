/** SHA1Context of sha1.c: SHA-1 over a message that comes in pieces. */
module Sha1Context {
  import opened Bytes
  import opened Sha1

  const SHA_SUCCESS := 0
  const SHA_NULL := 1
  const SHA_STATE_ERROR := 3

  const WORD_LIMIT := 0x1_0000_0000

  /** The longest message, in octets, is one less. */
  const MESSAGE_LIMIT := 0x2000_0000_0000_0000

  // ---------------------------------------------------------------- what a context stands for

  datatype State = Taking(message: seq<byte>) | Finished(message: seq<byte>) | Corrupt(code: int)

  /** SHA1Input() */
  function Take(s: State, data: seq<byte>): State {
    if data == [] then s else
      match s
      case Taking(m) => if |m + data| < MESSAGE_LIMIT then Taking(m + data) else Corrupt(SHA_NULL)
      case Finished(_) => Corrupt(SHA_STATE_ERROR)
      case Corrupt(_) => s
  }

  /** What SHA1Input() returns; an overflow is noticed too late for that. */
  function TakeStatus(s: State, data: seq<byte>): int {
    if data == [] then SHA_SUCCESS else
      match s
      case Taking(_) => SHA_SUCCESS
      case Finished(_) => SHA_STATE_ERROR
      case Corrupt(code) => code
  }

  /** SHA1Result() */
  function Finish(s: State): State {
    match s
    case Taking(m) => Finished(m)
    case _ => s
  }

  function TakeAll(s: State, pieces: seq<seq<byte>>): State
    decreases |pieces|
  {
    if pieces == [] then s else TakeAll(Take(s, pieces[0]), pieces[1..])
  }

  function Concat(pieces: seq<seq<byte>>): seq<byte>
    decreases |pieces|
  {
    if pieces == [] then [] else pieces[0] + Concat(pieces[1..])
  }

  /** However a message is cut, the context stands for all of it, unless that is too long. */
  lemma {:induction false} PiecesMakeTheMessage(taken: seq<byte>, pieces: seq<seq<byte>>)
    requires |taken| < 0x2000_0000_0000_0000
    ensures var m := taken + Concat(pieces);
      TakeAll(Taking(taken), pieces) == if |m| < 0x2000_0000_0000_0000 then Taking(m) else Corrupt(1)
    decreases |pieces|
  {
    if pieces != [] {
      var more, rest := taken + pieces[0], pieces[1..];
      assert taken + Concat(pieces) == more + Concat(rest);
      assert pieces[0] == [] ==> more == taken;
      if |more| < MESSAGE_LIMIT {
        PiecesMakeTheMessage(more, rest);
      } else {
        StaysCorrupt(SHA_NULL, rest);
      }
    } else {
      assert taken + [] == taken;
    }
  }

  /** The status codes by their numbers: 0 for success, 1 for NULL, 3 for a digest that is already computed. */
  lemma StatusInNumbers(s: State, data: seq<byte>)
    requires data != []
    ensures TakeStatus(s, data) ==
      match s
      case Taking(_) => 0
      case Finished(_) => 3
      case Corrupt(code) => code
    ensures s.Finished? ==> Take(s, data) == Corrupt(3)
    ensures TakeStatus(s, []) == 0 && Take(s, []) == s && SHA_NULL == 1
  {
  }

  lemma {:induction false} StaysCorrupt(code: int, pieces: seq<seq<byte>>)
    ensures TakeAll(Corrupt(code), pieces) == Corrupt(code)
    decreases |pieces|
  {
    if pieces != [] {
      StaysCorrupt(code, pieces[1..]);
    }
  }

  lemma FirstWords(block: seq<byte>, t: nat)
    requires |block| == 64 && t < 16
    ensures Schedule(block, t + 1)
      == Schedule(block, t) + [WordOf(block[4 * t], block[4 * t + 1], block[4 * t + 2], block[4 * t + 3])]
  {
    hide WordOf;
  }

  lemma LaterWords(block: seq<byte>, t: nat)
    requires |block| == 64 && 16 <= t
    ensures var w := Schedule(block, t);
      Schedule(block, t + 1) == w + [RotateLeft(1, Xor4(w[t - 3], w[t - 8], w[t - 14], w[t - 16]))]
  {
    hide RotateLeft, Xor4;
  }

  lemma Round0(t: nat, A: Word, B: Word, C: Word, D: Word, E: Word, w: Word)
    requires 0 <= t < 20
    ensures Round(t, Words(A, B, C, D, E), w)
      == Words(Add5(RotateLeft(5, A), ((B & C) | (!B & D)), E, w, 0x5A827999), A, RotateLeft(30, B), C, D)
  {
    hide RotateLeft, Add5;
  }

  lemma Round20(t: nat, A: Word, B: Word, C: Word, D: Word, E: Word, w: Word)
    requires 20 <= t < 40
    ensures Round(t, Words(A, B, C, D, E), w)
      == Words(Add5(RotateLeft(5, A), (B ^ C ^ D), E, w, 0x6ED9EBA1), A, RotateLeft(30, B), C, D)
  {
    hide RotateLeft, Add5;
  }

  lemma Round40(t: nat, A: Word, B: Word, C: Word, D: Word, E: Word, w: Word)
    requires 40 <= t < 60
    ensures Round(t, Words(A, B, C, D, E), w)
      == Words(Add5(RotateLeft(5, A), ((B & C) | (B & D) | (C & D)), E, w, 0x8F1BBCDC), A, RotateLeft(30, B), C, D)
  {
    hide RotateLeft, Add5;
  }

  lemma Round60(t: nat, A: Word, B: Word, C: Word, D: Word, E: Word, w: Word)
    requires 60 <= t < 80
    ensures Round(t, Words(A, B, C, D, E), w)
      == Words(Add5(RotateLeft(5, A), (B ^ C ^ D), E, w, 0xCA62C1D6), A, RotateLeft(30, B), C, D)
  {
    hide RotateLeft, Add5;
  }

  // ---------------------------------------------------------------- the context

  class Context {
    const intermediateHash: array<Word>
    const messageBlock: array<byte>
    var lengthLow: nat
    var lengthHigh: nat
    var messageBlockIndex: nat
    var computed: bool
    var corrupted: int

    /** All octets taken since the last reset. */
    ghost var message: seq<byte>

    ghost predicate Shape() {
      intermediateHash.Length == 5 && messageBlock.Length == 64
    }

    ghost predicate Valid()
      reads this, intermediateHash, messageBlock
    {
      && Shape() && messageBlockIndex < 64 && (computed ==> corrupted in {SHA_SUCCESS, SHA_STATE_ERROR})
      && (corrupted == SHA_SUCCESS ==> |message| < MESSAGE_LIMIT)
      && (corrupted == SHA_SUCCESS && !computed ==> TakingPart())
      && (corrupted == SHA_SUCCESS && computed ==> Digest(Hash()) == DigestOf(message))
    }

    /** The blocks that are complete are in the hash, the rest is in the block; the two length words count bits. */
    ghost predicate TakingPart()
      requires Shape()
      reads this, intermediateHash, messageBlock
    {
      && messageBlockIndex == |message| % 64
      && lengthLow < WORD_LIMIT && lengthHigh < WORD_LIMIT
      && WORD_LIMIT * lengthHigh + lengthLow == 8 * |message|
      && Hash() == HashAfter(message, |message| / 64)
      && messageBlock[..messageBlockIndex] == message[|message| - |message| % 64..]
    }

    ghost function Hash(): Words
      requires Shape()
      reads intermediateHash
    {
      Words(intermediateHash[0], intermediateHash[1], intermediateHash[2], intermediateHash[3], intermediateHash[4])
    }

    ghost function Stands(): State
      reads this
    {
      if corrupted != SHA_SUCCESS then Corrupt(corrupted) else if computed then Finished(message) else Taking(message)
    }

    constructor ()
      ensures Shape() && fresh(intermediateHash) && fresh(messageBlock)
    {
      intermediateHash, messageBlock := new Word[5], new byte[64];
    }

    /** SHA1Reset() */
    method Reset()
      requires Shape()
      modifies this, intermediateHash
      ensures Valid() && Stands() == Taking([])
    {
      lengthLow := 0;
      lengthHigh := 0;
      messageBlockIndex := 0;
      intermediateHash[0] := 0x67452301;
      intermediateHash[1] := 0xEFCDAB89;
      intermediateHash[2] := 0x98BADCFE;
      intermediateHash[3] := 0x10325476;
      intermediateHash[4] := 0xC3D2E1F0;
      computed := false;
      corrupted := SHA_SUCCESS;
      message := [];
    }

    /** The words W[0] to W[79]. */
    method FillSchedule() returns (w: array<Word>)
      requires Shape()
      ensures fresh(w) && w[..] == Schedule(messageBlock[..], 80)
    {
      hide WordOf, RotateLeft, Schedule;
      ghost var block := messageBlock[..];
      w := new Word[80];
      for t := 0 to 16
        invariant w[..t] == Schedule(block, t)
      {
        FirstWords(block, t);
        w[t] := WordOf(messageBlock[t * 4], messageBlock[t * 4 + 1], messageBlock[t * 4 + 2], messageBlock[t * 4 + 3]);
        assert w[..t + 1] == w[..t] + [w[t]];
      }
      ExtendSchedule(w, block);
    }

    /** The loop for W[16] to W[79]. */
    static method ExtendSchedule(w: array<Word>, ghost block: seq<byte>)
      requires w.Length == 80 && |block| == 64 && w[..16] == Schedule(block, 16)
      modifies w
      ensures w[..] == Schedule(block, 80)
    {
      hide RotateLeft, Schedule, Xor4;
      for t := 16 to 80
        invariant w[..t] == Schedule(block, t)
      {
        LaterWords(block, t);
        w[t] := RotateLeft(1, Xor4(w[t - 3], w[t - 8], w[t - 14], w[t - 16]));
        assert w[..t + 1] == w[..t] + [w[t]];
      }
      assert w[..80] == w[..];
    }

    /** SHA1ProcessMessageBlock() */
    method ProcessMessageBlock()
      requires Shape()
      modifies this`messageBlockIndex, intermediateHash
      ensures Hash() == Compress(old(Hash()), old(messageBlock[..])) && messageBlockIndex == 0
    {
      hide RotateLeft, Round, Schedule, Add, Add5;
      var w := FillSchedule();
      ghost var ws := w[..];
      ghost var start := Hash();
      var A, B, C, D, E := intermediateHash[0], intermediateHash[1], intermediateHash[2], intermediateHash[3],
        intermediateHash[4];
      var temp: Word;
      for t := 0 to 20
        invariant w[..] == ws && Hash() == start && Words(A, B, C, D, E) == Rounds(start, ws, t)
      {
        assert ws[t] == w[t];
        Round0(t, A, B, C, D, E, w[t]);
        temp := Add5(RotateLeft(5, A), ((B & C) | (!B & D)), E, w[t], 0x5A827999);
        E, D, C, B, A := D, C, RotateLeft(30, B), A, temp;
      }
      for t := 20 to 40
        invariant w[..] == ws && Hash() == start && Words(A, B, C, D, E) == Rounds(start, ws, t)
      {
        assert ws[t] == w[t];
        Round20(t, A, B, C, D, E, w[t]);
        temp := Add5(RotateLeft(5, A), (B ^ C ^ D), E, w[t], 0x6ED9EBA1);
        E, D, C, B, A := D, C, RotateLeft(30, B), A, temp;
      }
      for t := 40 to 60
        invariant w[..] == ws && Hash() == start && Words(A, B, C, D, E) == Rounds(start, ws, t)
      {
        assert ws[t] == w[t];
        Round40(t, A, B, C, D, E, w[t]);
        temp := Add5(RotateLeft(5, A), ((B & C) | (B & D) | (C & D)), E, w[t], 0x8F1BBCDC);
        E, D, C, B, A := D, C, RotateLeft(30, B), A, temp;
      }
      for t := 60 to 80
        invariant w[..] == ws && Hash() == start && Words(A, B, C, D, E) == Rounds(start, ws, t)
      {
        assert ws[t] == w[t];
        Round60(t, A, B, C, D, E, w[t]);
        temp := Add5(RotateLeft(5, A), (B ^ C ^ D), E, w[t], 0xCA62C1D6);
        E, D, C, B, A := D, C, RotateLeft(30, B), A, temp;
      }
      intermediateHash[0] := Add(intermediateHash[0], A);
      intermediateHash[1] := Add(intermediateHash[1], B);
      intermediateHash[2] := Add(intermediateHash[2], C);
      intermediateHash[3] := Add(intermediateHash[3], D);
      intermediateHash[4] := Add(intermediateHash[4], E);
      messageBlockIndex := 0;
    }

    /** One round of SHA1Input()'s loop. */
    method TakeOctet(b: byte)
      requires Valid() && corrupted == SHA_SUCCESS && !computed && |message| < MESSAGE_LIMIT
      modifies this, intermediateHash, messageBlock
      ensures Valid() && !computed && message == old(message) + [b]
      ensures corrupted == if |message| < MESSAGE_LIMIT then SHA_SUCCESS else SHA_NULL
    {
      hide Compress, HashAfter;
      ghost var m, rest := message + [b], messageBlock[..messageBlockIndex];
      Append(message, b);
      messageBlock[messageBlockIndex] := b;
      messageBlockIndex := messageBlockIndex + 1;
      assert messageBlock[..messageBlockIndex] == rest + [b];
      CountOctet();
      if messageBlockIndex == 64 {
        assert messageBlock[..] == messageBlock[..64];
        ProcessMessageBlock();
      }
      message := m;
      assert corrupted == SHA_SUCCESS ==> TakingPart();
    }

    /** Eight bits more in the two length words; a message that is too long takes them back to zero. */
    method CountOctet()
      requires lengthLow < WORD_LIMIT && lengthHigh < WORD_LIMIT && corrupted == SHA_SUCCESS
      requires WORD_LIMIT * lengthHigh + lengthLow == 8 * |message| && |message| < MESSAGE_LIMIT
      modifies this`lengthLow, this`lengthHigh, this`corrupted
      ensures lengthLow < WORD_LIMIT && lengthHigh < WORD_LIMIT
      ensures if |message| + 1 < MESSAGE_LIMIT
        then corrupted == SHA_SUCCESS && WORD_LIMIT * lengthHigh + lengthLow == 8 * (|message| + 1)
        else corrupted == SHA_NULL && lengthHigh == 0 && lengthLow == 0
    {
      ghost var high, low := lengthHigh, lengthLow;
      lengthLow := (lengthLow + 8) % WORD_LIMIT;
      if lengthLow == 0 {
        lengthHigh := (lengthHigh + 1) % WORD_LIMIT;
        if lengthHigh == 0 {
          corrupted := SHA_NULL;
        }
      }
      assert low % 8 == 0 && low + 8 <= WORD_LIMIT;
    }

    /** SHA1Input() */
    method Input(messageArray: array?<byte>, length: nat) returns (status: int)
      requires Valid() && messageArray != messageBlock && (messageArray != null ==> length <= messageArray.Length)
      modifies this, intermediateHash, messageBlock
      ensures Valid()
      ensures messageArray == null ==>
        Stands() == old(Stands()) && status == if length == 0 then SHA_SUCCESS else SHA_NULL
      ensures messageArray != null ==>
        var data := messageArray[..length];
        Stands() == Take(old(Stands()), data) && status == TakeStatus(old(Stands()), data)
    {
      hide Context.TakingPart, Digest, DigestOf;
      if length == 0 {
        return SHA_SUCCESS;
      }
      if messageArray == null {
        return SHA_NULL;
      }
      if computed {
        corrupted := SHA_STATE_ERROR;
        return SHA_STATE_ERROR;
      }
      if corrupted != SHA_SUCCESS {
        return corrupted;
      }
      ghost var data := messageArray[..length];
      var i := 0;
      while i < length && corrupted == SHA_SUCCESS
        invariant i <= length && Valid() && !computed && message == old(message) + data[..i]
        invariant corrupted == if |message| < MESSAGE_LIMIT then SHA_SUCCESS else SHA_NULL
        invariant messageArray[..length] == data
        decreases length - i
      {
        TakeOctet(messageArray[i]);
        assert data[..i + 1] == data[..i] + [data[i]];
        i := i + 1;
      }
      assert data[..length] == data;
      status := SHA_SUCCESS;
    }

    method FillZeros(end: nat)
      requires Shape() && messageBlockIndex <= end <= 64
      modifies this`messageBlockIndex, messageBlock
      ensures messageBlockIndex == end
      ensures messageBlock[..end] == old(messageBlock[..messageBlockIndex]) + Zeros(end - old(messageBlockIndex))
    {
      ghost var start, kept := messageBlockIndex, messageBlock[..messageBlockIndex];
      while messageBlockIndex < end
        invariant start <= messageBlockIndex <= end
          && messageBlock[..messageBlockIndex] == kept + Zeros(messageBlockIndex - start)
      {
        messageBlock[messageBlockIndex] := 0;
        messageBlockIndex := messageBlockIndex + 1;
        assert messageBlock[..messageBlockIndex] == messageBlock[..messageBlockIndex - 1] + [0];
      }
    }

    /** SHA1PadMessage() */
    method PadMessage()
      requires Shape() && TakingPart()
      modifies this`messageBlockIndex, intermediateHash, messageBlock
      ensures messageBlockIndex == 0 && Hash() == HashAfter(Padded(message), |Padded(message)| / 64)
    {
      hide Compress, Zeros, BigEndian, Octet, HashAfter, Padded;
      ghost var m, used, rest := message, messageBlockIndex, messageBlock[..messageBlockIndex];
      LastBlocks(m);
      assert |m| - |m| % 64 == 64 * (|m| / 64);
      ghost var length := BigEndian(8 * |m|, 8);
      messageBlock[messageBlockIndex] := 0x80;
      messageBlockIndex := messageBlockIndex + 1;
      assert messageBlock[..messageBlockIndex] == rest + [0x80];
      if messageBlockIndex > 56 {
        FillZeros(64);
        assert messageBlock[..] == messageBlock[..64];
        ProcessMessageBlock();
        assert messageBlock[..messageBlockIndex] == [];
        FillZeros(56);
        assert [] + Zeros(56) == Zeros(56);
      } else {
        FillZeros(56);
      }
      StoreLength();
      ProcessMessageBlock();
    }

    /** The length words, in the last 8 octets of the block. */
    method StoreLength()
      requires Shape() && lengthLow < WORD_LIMIT && WORD_LIMIT * lengthHigh + lengthLow == 8 * |message|
      modifies messageBlock
      ensures messageBlock[..] == old(messageBlock[..56]) + BigEndian(8 * |message|, 8)
    {
      hide BigEndian, Octet;
      LengthOctets(lengthHigh, lengthLow, 8 * |message|);
      messageBlock[56] := Octet(lengthHigh, 3);
      messageBlock[57] := Octet(lengthHigh, 2);
      messageBlock[58] := Octet(lengthHigh, 1);
      messageBlock[59] := Octet(lengthHigh, 0);
      messageBlock[60] := Octet(lengthLow, 3);
      messageBlock[61] := Octet(lengthLow, 2);
      messageBlock[62] := Octet(lengthLow, 1);
      messageBlock[63] := Octet(lengthLow, 0);
      assert messageBlock[..] == messageBlock[..56] +
        [messageBlock[56], messageBlock[57], messageBlock[58], messageBlock[59],
         messageBlock[60], messageBlock[61], messageBlock[62], messageBlock[63]];
    }

    /** SHA1Result() */
    method Result(messageDigest: array?<byte>) returns (status: int)
      requires Valid() && (messageDigest != null ==> messageDigest.Length == 20 && messageDigest != messageBlock)
      modifies this, intermediateHash, messageBlock, messageDigest
      ensures Valid() && Stands() == if messageDigest == null then old(Stands()) else Finish(old(Stands()))
      ensures messageDigest == null ==> status == SHA_NULL
      ensures messageDigest != null ==> match Stands()
        case Finished(m) => status == SHA_SUCCESS && messageDigest[..] == DigestOf(m)
        case Taking(_) => false
        case Corrupt(code) => status == code && messageDigest[..] == old(messageDigest[..])
    {
      hide Compress, Zeros, HashAfter, Padded, Digest, WordOctets, WordOctet, BigEndian;
      if messageDigest == null {
        return SHA_NULL;
      }
      if corrupted != SHA_SUCCESS {
        return corrupted;
      }
      if !computed {
        PadMessage();
        for i := 0 to 64
          modifies messageBlock
          invariant Hash() == HashAfter(Padded(message), |Padded(message)| / 64)
        {
          messageBlock[i] := 0;
        }
        lengthLow := 0;
        lengthHigh := 0;
        computed := true;
      }
      WriteDigest(messageDigest);
      status := SHA_SUCCESS;
    }

    /** The loop that stores the hash. */
    method WriteDigest(messageDigest: array<byte>)
      requires Shape() && messageDigest.Length == 20
      modifies messageDigest
      ensures messageDigest[..] == Digest(Hash())
    {
      hide WordOctet, Digest;
      ghost var d := Digest(Hash());
      for i := 0 to 20
        invariant messageDigest[..i] == d[..i]
      {
        DigestAt(Hash(), i);
        assert intermediateHash[i / 4] == WordAt(Hash(), i / 4);
        messageDigest[i] := WordOctet(intermediateHash[i / 4], i % 4);
        assert messageDigest[..i + 1] == messageDigest[..i] + [messageDigest[i]] && d[..i + 1] == d[..i] + [d[i]];
      }
      assert messageDigest[..] == messageDigest[..20] && d == d[..20];
    }
  }

  /** One octet more, and the block it may complete. */
  lemma Append(m: seq<byte>, b: byte)
    ensures var n, used := m + [b], |m| % 64;
      var rest := m[|m| - used..] + [b];
      && (used < 63 ==> n[|n| - |n| % 64..] == rest && HashAfter(n, |n| / 64) == HashAfter(m, |m| / 64))
      && (used == 63 ==> n[|n| - |n| % 64..] == [] && HashAfter(n, |n| / 64) == Compress(HashAfter(m, |m| / 64), rest))
      && |n| % 64 == if used < 63 then used + 1 else 0
  {
    hide Compress;
    var n, q := m + [b], |m| / 64;
    HashAfterPrefix(m, [b], q);
    if |m| % 64 == 63 {
      assert |n| / 64 == q + 1;
      assert n[64 * q..64 * (q + 1)] == m[|m| - |m| % 64..] + [b];
    } else {
      assert |n| / 64 == q;
    }
  }
}
