/** AES-CBC as an encrypting writer and a block-rounding decrypting reader (stream.go).
    The block cipher is any pair of functions with dec(enc(b)) == b; the chaining mode is
    section 6.2 of NIST SP 800-38A. */
module Stream {
  import opened Bytes

  const BLOCK := 16

  type Block = b: seq<byte> | |b| == BLOCK witness Zeros(BLOCK)

  datatype Cipher = Cipher(enc: Block -> Block, dec: Block -> Block) {
    ghost predicate Lawful() {
      forall b: Block :: dec(enc(b)) == b
    }
  }

  function XorBlock(a: Block, b: Block): Block {
    seq(BLOCK, i requires 0 <= i < BLOCK => Xor(a[i], b[i]))
  }

  lemma XorBlockCancel(a: Block, b: Block)
    ensures XorBlock(XorBlock(a, b), b) == a
  {
    forall i | 0 <= i < BLOCK ensures XorBlock(XorBlock(a, b), b)[i] == a[i] {
      XorCancel(a[i], b[i]);
    }
  }

  predicate Aligned(p: seq<byte>) {
    |p| % BLOCK == 0
  }

  /** CBC encryption of whole blocks, the first one chained to chain. */
  function Encrypt(c: Cipher, chain: Block, p: seq<byte>): (ct: seq<byte>)
    requires Aligned(p)
    ensures |ct| == |p|
    decreases |p|
  {
    if p == [] then []
    else
      var x := c.enc(XorBlock(p[..BLOCK], chain));
      x + Encrypt(c, x, p[BLOCK..])
  }

  function Decrypt(c: Cipher, chain: Block, ct: seq<byte>): (p: seq<byte>)
    requires Aligned(ct)
    ensures |p| == |ct|
    decreases |ct|
  {
    if ct == [] then []
    else XorBlock(c.dec(ct[..BLOCK]), chain) + Decrypt(c, ct[..BLOCK], ct[BLOCK..])
  }

  /** The chaining block after ct has been processed: its last block. */
  function Chained(chain: Block, ct: seq<byte>): Block
    requires Aligned(ct)
  {
    if ct == [] then chain else ct[|ct| - BLOCK..]
  }

  lemma ShiftedSlice<T>(s: seq<T>, n: nat, i: nat, j: nat)
    requires i <= j && n + j <= |s|
    ensures s[n..][i..j] == s[n + i..n + j]
  {
  }

  /** The defining equation of the mode, block by block. */
  lemma {:induction false} EncryptBlock(c: Cipher, chain: Block, p: seq<byte>, j: nat)
    requires Aligned(p) && BLOCK * (j + 1) <= |p|
    ensures var ct := Encrypt(c, chain, p);
            ct[BLOCK * j..BLOCK * (j + 1)]
            == c.enc(XorBlock(p[BLOCK * j..BLOCK * (j + 1)], if j == 0 then chain else ct[BLOCK * (j - 1)..BLOCK * j]))
    decreases j
  {
    hide Encrypt, XorBlock;
    var ct := Encrypt(c, chain, p);
    var x := c.enc(XorBlock(p[..BLOCK], chain));
    EncryptUnfold(c, chain, p);
    assert ct[..BLOCK] == x && ct[BLOCK..] == Encrypt(c, x, p[BLOCK..]);
    if j > 0 {
      EncryptBlock(c, x, p[BLOCK..], j - 1);
      ShiftedSlice(p, BLOCK, BLOCK * (j - 1), BLOCK * j);
      ShiftedSlice(ct, BLOCK, BLOCK * (j - 1), BLOCK * j);
      if j > 1 {
        ShiftedSlice(ct, BLOCK, BLOCK * (j - 2), BLOCK * (j - 1));
      }
    }
  }

  lemma {:induction false} DecryptEncrypt(c: Cipher, chain: Block, p: seq<byte>)
    requires c.Lawful() && Aligned(p)
    ensures Decrypt(c, chain, Encrypt(c, chain, p)) == p
    decreases |p|
  {
    if p != [] {
      var x := c.enc(XorBlock(p[..BLOCK], chain));
      var ct := Encrypt(c, chain, p);
      assert ct[..BLOCK] == x && ct[BLOCK..] == Encrypt(c, x, p[BLOCK..]);
      XorBlockCancel(p[..BLOCK], chain);
      DecryptEncrypt(c, x, p[BLOCK..]);
      assert p == p[..BLOCK] + p[BLOCK..];
    }
  }

  lemma ChainedConcat(chain: Block, a: seq<byte>, b: seq<byte>)
    requires Aligned(a) && Aligned(b)
    ensures Aligned(a + b) && Chained(chain, a + b) == Chained(Chained(chain, a), b)
  {
    if b == [] {
      assert a + b == a;
    }
  }

  /** Splitting a plaintext over several aligned writes does not change the ciphertext. */
  lemma {:induction false} EncryptConcat(c: Cipher, chain: Block, a: seq<byte>, b: seq<byte>)
    requires Aligned(a) && Aligned(b)
    ensures var ca := Encrypt(c, chain, a);
            Aligned(a + b) && Encrypt(c, chain, a + b) == ca + Encrypt(c, Chained(chain, ca), b)
    decreases |a|
  {
    if a == [] {
      assert a + b == b;
    } else {
      var x := c.enc(XorBlock(a[..BLOCK], chain));
      var rest := Encrypt(c, x, a[BLOCK..]);
      EncryptUnfold(c, chain, a);
      EncryptUnfold(c, chain, a + b);
      hide *;
      assert (a + b)[..BLOCK] == a[..BLOCK];
      assert (a + b)[BLOCK..] == a[BLOCK..] + b;
      EncryptConcat(c, x, a[BLOCK..], b);
      ChainedConcat(chain, x, rest);
      ChainedWhole(chain, x);
      Assoc(x, rest, Encrypt(c, Chained(x, rest), b));
    }
  }

  lemma ChainedWhole(chain: Block, x: Block)
    ensures Chained(chain, x) == x
  {
  }

  lemma EncryptUnfold(c: Cipher, chain: Block, p: seq<byte>)
    requires Aligned(p) && p != []
    ensures |p| >= BLOCK && Aligned(p[BLOCK..])
    ensures var x := c.enc(XorBlock(p[..BLOCK], chain));
            Encrypt(c, chain, p) == x + Encrypt(c, x, p[BLOCK..])
  {
  }

  lemma DecryptUnfold(c: Cipher, chain: Block, ct: seq<byte>)
    requires Aligned(ct) && ct != []
    ensures |ct| >= BLOCK && Aligned(ct[BLOCK..])
    ensures Decrypt(c, chain, ct) == XorBlock(c.dec(ct[..BLOCK]), chain) + Decrypt(c, ct[..BLOCK], ct[BLOCK..])
  {
  }

  lemma {:induction false} DecryptConcat(c: Cipher, chain: Block, a: seq<byte>, b: seq<byte>)
    requires Aligned(a) && Aligned(b)
    ensures Aligned(a + b) && Decrypt(c, chain, a + b) == Decrypt(c, chain, a) + Decrypt(c, Chained(chain, a), b)
    decreases |a|
  {
    if a == [] {
      assert a + b == b;
    } else {
      DecryptUnfold(c, chain, a);
      DecryptUnfold(c, chain, a + b);
      var x, rest := a[..BLOCK], a[BLOCK..];
      var first := XorBlock(c.dec(x), chain);
      hide *;
      assert (a + b)[..BLOCK] == x;
      assert (a + b)[BLOCK..] == rest + b;
      DecryptConcat(c, x, rest, b);
      assert a == x + rest;
      ChainedConcat(chain, x, rest);
      ChainedWhole(chain, x);
      Assoc(first, Decrypt(c, x, rest), Decrypt(c, Chained(chain, a), b));
    }
  }

  // ---- The writer -----------------------------------------------------------

  lemma OneBlock(c: Cipher, chain: Block, a: seq<byte>, b: Block)
    requires Aligned(a)
    ensures var ca := Encrypt(c, chain, a);
            var x := c.enc(XorBlock(b, Chained(chain, ca)));
            Aligned(a + b) && Encrypt(c, chain, a + b) == ca + x && Chained(chain, ca + x) == x
  {
    var ca := Encrypt(c, chain, a);
    EncryptConcat(c, chain, a, b);
    EncryptUnfold(c, Chained(chain, ca), b);
    assert b[..BLOCK] == b && b[BLOCK..] == [];
    var x := c.enc(XorBlock(b, Chained(chain, ca)));
    assert Encrypt(c, x, []) == [];
    ChainedConcat(chain, ca, x);
    ChainedWhole(Chained(chain, ca), x);
  }

  class EncryptWriter {
    const cipher: Cipher
    const iv: Block
    var chain: Block
    var sent: seq<byte>
    ghost var plain: seq<byte>

    /** Everything sent so far is the encryption of everything written so far, however it was split. */
    ghost predicate Valid()
      reads this
    {
      Aligned(plain) && sent == Encrypt(cipher, iv, plain) && chain == Chained(iv, sent)
    }

    constructor (cipher: Cipher, iv: Block)
      ensures Valid() && this.cipher == cipher && this.iv == iv && plain == []
    {
      this.cipher, this.iv := cipher, iv;
      chain, sent, plain := iv, [], [];
    }

    /** Encrypts whole blocks, advancing the chaining block. */
    method CryptBlocks(p: seq<byte>) returns (ct: seq<byte>)
      requires Aligned(p)
      modifies this`chain
      ensures ct == Encrypt(cipher, old(chain), p) && chain == Chained(old(chain), ct)
    {
      ct := [];
      assert p[..0] == [] && Encrypt(cipher, old(chain), []) == [] && Chained(old(chain), []) == old(chain);
      hide XorBlock, Chained, Encrypt;
      var i := 0;
      while i < |p|
        invariant 0 <= i <= |p| && i % BLOCK == 0
        invariant ct == Encrypt(cipher, old(chain), p[..i]) && chain == Chained(old(chain), ct)
      {
        var x := cipher.enc(XorBlock(p[i..i + BLOCK], chain));
        OneBlock(cipher, old(chain), p[..i], p[i..i + BLOCK]);
        assert p[..i] + p[i..i + BLOCK] == p[..i + BLOCK];
        ct, chain := ct + x, x;
        i := i + BLOCK;
      }
      assert p[..i] == p;
    }

    method Write(p: seq<byte>) returns (r: Result<nat>)
      requires Valid()
      modifies this
      ensures Valid()
      ensures Aligned(p) ==> r == Ok(|p|) && plain == old(plain) + p
      ensures !Aligned(p) ==> r.Err? && plain == old(plain) && sent == old(sent) && chain == old(chain)
    {
      if |p| % BLOCK != 0 {
        return Err("data length not a multiple of the block size");
      }
      hide Encrypt, Chained;
      EncryptConcat(cipher, iv, plain, p);
      ChainedConcat(iv, sent, Encrypt(cipher, chain, p));
      var ct := CryptBlocks(p);
      sent, plain := sent + ct, plain + p;
      r := Ok(|p|);
    }
  }

  // ---- The reader -----------------------------------------------------------

  /** The decrypting side: its chaining block and the ciphertext it has still to consume. */
  datatype Reader = Reader(chain: Block, input: seq<byte>)

  /** How many bytes one Read takes from the connection for a buffer of len bytes. */
  function ReadSize(len: nat): (n: nat)
    ensures n % BLOCK == 0 && n >= BLOCK
  {
    if len < BLOCK then BLOCK else len - len % BLOCK
  }

  lemma WholeBlocks(n: nat)
    ensures n / BLOCK * BLOCK == n - n % BLOCK
  {
  }

  lemma ReadSizeOf(len: nat)
    ensures ReadSize(len) == if len < BLOCK then BLOCK - BLOCK % BLOCK else len - len % BLOCK
  {
  }

  function RoundUp(len: nat): (n: nat)
    ensures n % BLOCK == 0 && len <= n < len + BLOCK
  {
    if len % BLOCK == 0 then len else len + (BLOCK - len % BLOCK)
  }

  function Advance(s: Reader, n: nat): Reader
    requires n <= |s.input| && n % BLOCK == 0
  {
    Reader(Chained(s.chain, s.input[..n]), s.input[n..])
  }

  /** One Read: either a whole number of blocks arrives, or the connection ends and what was left is lost. */
  function ReadStep(c: Cipher, s: Reader, len: nat): (Result<seq<byte>>, Reader) {
    var n := ReadSize(len);
    if |s.input| < n then (Err("unexpected EOF"), Reader(s.chain, []))
    else (Ok(Decrypt(c, s.chain, s.input[..n])[..Min(n, len)]), Advance(s, n))
  }

  /** A read that fills a buffer of len bytes. */
  function FullRead(c: Cipher, s: Reader, len: nat): Option<(seq<byte>, Reader)> {
    var n := RoundUp(len);
    if |s.input| < n then None
    else Some((Decrypt(c, s.chain, s.input[..n])[..len], Advance(s, n)))
  }

  class DecryptReader {
    const cipher: Cipher
    var chain: Block
    var input: seq<byte>

    constructor (cipher: Cipher, iv: Block, input: seq<byte>)
      ensures this.cipher == cipher && State() == Reader(iv, input)
    {
      this.cipher := cipher;
      this.chain, this.input := iv, input;
    }

    function State(): Reader
      reads this
    {
      Reader(chain, input)
    }

    /** Reads into the slice p[off..off + len]. */
    method Read(p: array<byte>, off: nat, len: nat) returns (r: Result<nat>)
      requires off + len <= p.Length
      modifies this, p
      ensures State() == ReadStep(cipher, old(State()), len).1
      ensures match ReadStep(cipher, old(State()), len).0
              case Err(_) => r.Err? && p[..] == old(p[..])
              case Ok(data) => r == Ok(|data|) && |data| <= len
                               && p[..] == old(p[..off]) + data + old(p[off + |data|..])
    {
      hide Decrypt, ReadSize, Chained;
      var n := len;
      if n < BLOCK {
        n := BLOCK;
      }
      WholeBlocks(n);
      ReadSizeOf(len);
      n := n / BLOCK * BLOCK;
      if |input| < n {
        input := [];
        return Err("unexpected EOF");
      }
      var ct := input[..n];
      var pt := Decrypt(cipher, chain, ct);
      chain, input := Chained(chain, ct), input[n..];
      var k := if n > len then len else n;
      PutBytes(p, off, pt[..k]);
      r := Ok(k);
    }

    /** One Read on the way to a full buffer, of which n bytes are there. */
    method ReadMore(p: array<byte>, n: nat, ghost s0: Reader) returns (k: nat, ok: bool)
      requires n < p.Length && Progress(cipher, s0, State(), p[..n], p.Length)
      modifies this, p
      ensures ok ==> 0 < k && n + k <= p.Length && Progress(cipher, s0, State(), p[..n + k], p.Length)
      ensures !ok ==> FullRead(cipher, s0, p.Length).None?
    {
      hide *;
      ReadProgress(cipher, s0, State(), p[..n], p.Length);
      ghost var got := p[..n];
      ghost var step := ReadStep(cipher, State(), p.Length - n);
      var r := Read(p, n, p.Length - n);
      if r.Err? {
        assert step.0.Err?;
        return 0, false;
      }
      k, ok := r.value, true;
      ghost var rest := p[..][n + k..];
      TakePrefix(got, step.0.value, rest);
      assert p[..] == got + step.0.value + rest;
      assert p[..n + k] == p[..][..n + k];
    }

    /** io.ReadFull: keeps reading until the buffer is full. */
    method ReadFull(p: array<byte>) returns (ok: bool)
      modifies this, p
      ensures var f := FullRead(cipher, old(State()), p.Length);
              && (ok <==> f.Some?)
              && (ok ==> p[..] == f.value.0 && State() == f.value.1)
    {
      ghost var s0 := State();
      var n := 0;
      ProgressStarts(cipher, s0, p.Length);
      hide *;
      assert p[..0] == [];
      while n < p.Length
        invariant 0 <= n <= p.Length
        invariant Progress(cipher, s0, State(), p[..n], p.Length)
        decreases p.Length - n
      {
        var k, more := ReadMore(p, n, s0);
        if !more {
          return false;
        }
        n := n + k;
      }
      assert p[..n] == p[..];
      ProgressEnds(cipher, s0, State(), p[..], p.Length);
      ok := true;
    }
  }

  lemma ProgressStarts(c: Cipher, s: Reader, total: nat)
    ensures Progress(c, s, s, [], total)
  {
    assert s.input[..0] == [] && s.input[0..] == s.input;
    assert RoundUp(0) == 0;
  }

  lemma ProgressEnds(c: Cipher, s: Reader, t: Reader, got: seq<byte>, total: nat)
    requires Progress(c, s, t, got, total) && |got| == total
    ensures FullRead(c, s, total) == Some((got, t))
  {
  }

  /** How far a full read of total bytes has come: got has been delivered and t is the reader's state. */
  predicate Progress(c: Cipher, s: Reader, t: Reader, got: seq<byte>, total: nat) {
    var n := RoundUp(|got|);
    && |got| <= total && (|got| == total || |got| == n)
    && n <= |s.input| && t == Advance(s, n)
    && got == Decrypt(c, s.chain, s.input[..n])[..|got|]
  }

  lemma RoundingSteps(n: nat, total: nat)
    requires n < total && n % BLOCK == 0
    ensures var m := ReadSize(total - n);
            var k := n + Min(m, total - n);
            && RoundUp(n) == n && n < k <= total && RoundUp(k) == n + m <= RoundUp(total)
            && (k == total || k % BLOCK == 0)
  {
  }

  lemma ReadProgress(c: Cipher, s: Reader, t: Reader, got: seq<byte>, total: nat)
    requires Progress(c, s, t, got, total) && |got| < total
    ensures match ReadStep(c, t, total - |got|)
            case (Err(_), _) => FullRead(c, s, total).None?
            case (Ok(data), u) => data != [] && Progress(c, s, u, got + data, total)
  {
    hide Decrypt, Chained;
    var n := |got|;
    RoundingSteps(n, total);
    hide RoundUp, ReadSize;
    var m := ReadSize(total - n);
    if n + m <= |s.input| {
      AdvanceTwice(c, s, n, m);
      var first := Decrypt(c, s.chain, s.input[..n]);
      var next := Decrypt(c, t.chain, t.input[..m]);
      assert got == first;
      assert (first + next)[..n + Min(m, total - n)] == first + next[..Min(m, total - n)];
    }
  }

  lemma AdvanceTwice(c: Cipher, s: Reader, n: nat, m: nat)
    requires n % BLOCK == 0 && m % BLOCK == 0 && n + m <= |s.input|
    ensures Advance(Advance(s, n), m) == Advance(s, n + m)
    ensures Decrypt(c, s.chain, s.input[..n + m])
         == Decrypt(c, s.chain, s.input[..n]) + Decrypt(c, Advance(s, n).chain, Advance(s, n).input[..m])
  {
    hide Decrypt, Chained;
    assert s.input[..n + m] == s.input[..n] + s.input[n..][..m];
    assert s.input[n..][m..] == s.input[n + m..];
    DecryptConcat(c, s.chain, s.input[..n], s.input[n..][..m]);
    ChainedConcat(s.chain, s.input[..n], s.input[n..][..m]);
  }

  // ---- Reading back what was written ------------------------------------------

  /** The reader is about to receive exactly the plaintext p. */
  predicate Encodes(c: Cipher, s: Reader, p: seq<byte>) {
    Aligned(p) && s.input == Encrypt(c, s.chain, p)
  }

  lemma EncodesSuffix(c: Cipher, s: Reader, p: seq<byte>, n: nat)
    requires c.Lawful() && Encodes(c, s, p) && n % BLOCK == 0 && n <= |p|
    ensures Decrypt(c, s.chain, s.input[..n]) == p[..n]
    ensures Encodes(c, Advance(s, n), p[n..])
    ensures Chained(Advance(s, n).chain, Advance(s, n).input) == Chained(s.chain, s.input)
  {
    hide Encrypt, Decrypt, Chained;
    EncryptConcat(c, s.chain, p[..n], p[n..]);
    ChainedConcat(s.chain, s.input[..n], s.input[n..]);
    assert s.input == s.input[..n] + s.input[n..];
    assert p == p[..n] + p[n..];
    assert s.input[..n] == Encrypt(c, s.chain, p[..n]);
    assert s.input[n..] == Encrypt(c, Chained(s.chain, s.input[..n]), p[n..]);
    DecryptEncrypt(c, s.chain, p[..n]);
  }

  /** A full read of a whole number of blocks of a + b, where a is that long, returns a. */
  lemma ReadPrefix(c: Cipher, s: Reader, a: seq<byte>, b: seq<byte>)
    requires c.Lawful() && Aligned(a) && Encodes(c, s, a + b)
    ensures |a| <= |s.input|
    ensures FullRead(c, s, |a|) == Some((a, Advance(s, |a|)))
    ensures Encodes(c, Advance(s, |a|), b)
  {
    EncodesSuffix(c, s, a + b, |a|);
    assert (a + b)[..|a|] == a && a[..|a|] == a;
    assert (a + b)[|a|..] == b;
    assert RoundUp(|a|) == |a|;
  }

  function ReadMany(c: Cipher, s: Reader, lens: seq<nat>): Option<(seq<seq<byte>>, Reader)>
    decreases |lens|
  {
    if lens == [] then Some(([], s))
    else
      match FullRead(c, s, lens[0])
      case None => None
      case Some((b, t)) =>
        match ReadMany(c, t, lens[1..])
        case None => None
        case Some((bs, u)) => Some(([b] + bs, u))
  }

  function TotalRounded(lens: seq<nat>): nat {
    if lens == [] then 0 else RoundUp(lens[0]) + TotalRounded(lens[1..])
  }

  /** The pieces a sequence of full reads should return: each length starts on a fresh block. */
  function Pieces(p: seq<byte>, lens: seq<nat>): seq<seq<byte>>
    requires TotalRounded(lens) <= |p|
  {
    if lens == [] then []
    else [p[..lens[0]]] + Pieces(p[RoundUp(lens[0])..], lens[1..])
  }

  /** Any sequence of full reads returns the plaintext in order, consuming each length rounded up to a
      block; when everything is consumed the reader's chaining block is the writer's. */
  lemma {:induction false} ReadBack(c: Cipher, s: Reader, p: seq<byte>, lens: seq<nat>)
    requires c.Lawful() && Encodes(c, s, p)
    ensures ReadMany(c, s, lens).Some? <==> TotalRounded(lens) <= |p|
    ensures var n := TotalRounded(lens);
            n <= |p| ==>
              var (bs, t) := ReadMany(c, s, lens).value;
              && bs == Pieces(p, lens)
              && Encodes(c, t, p[n..])
              && (n == |p| ==> t.input == [] && t.chain == Chained(s.chain, Encrypt(c, s.chain, p)))
    decreases |lens|
  {
    hide Encrypt, Decrypt;
    if lens != [] {
      var n := RoundUp(lens[0]);
      if n <= |p| {
        EncodesSuffix(c, s, p, n);
        ReadBack(c, Advance(s, n), p[n..], lens[1..]);
        assert p[..n][..lens[0]] == p[..lens[0]];
        var m := TotalRounded(lens[1..]);
        if n + m <= |p| {
          assert p[n..][m..] == p[n + m..];
        }
      }
    }
  }
}
