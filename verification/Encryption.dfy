/** Encrypting database entries: padding, cipher block chaining, and key rotation through a set of ciphers.
    The block cipher and the text encoding of bytes are parameters of everything here. */
module Encryption {
  import opened Wrappers

  type Bytes = seq<bv8>

  const BLOCK_SIZE: nat := 16

  type Block = b: Bytes | |b| == BLOCK_SIZE witness seq(BLOCK_SIZE, _ => 0)

  datatype Error =
    | NoConfigs | NoPrimary | ManyPrimaries
    | PrimaryUnusable | ConfigUnusable(name: string)
    | MetadataDiffers | NoInitializationVector | BadData | BadInitializationVector
    | NoCipherMatches(metadata: Metadata)

  /** A call returns a value or an error, or panics. */
  datatype Outcome<+T> = Returns(value: T) | Fails(error: Error) | Panics

  datatype Metadata = Metadata(name: string, version: int)

  datatype EncryptedData = EncryptedData(data: string, iv: string, metadata: Metadata)

  datatype Config = Config(name: string, version: int, primary: bool, material: string)

  datatype Cipher = Cipher(key: Bytes, metadata: Metadata)

  datatype CipherSet = CipherSet(ciphers: seq<Cipher>, primary: Cipher)

  datatype Primitives = Primitives(
    encryptBlock: (Bytes, Block) -> Block,
    decryptBlock: (Bytes, Block) -> Block,
    encode: Bytes -> string,
    decode: string -> Option<Bytes>)

  predicate IsKey(key: Bytes) {
    |key| in {16, 24, 32}
  }

  ghost predicate DecodesEncoded(p: Primitives, b: Bytes) {
    p.decode(p.encode(b)) == Some(b) && (p.encode(b) == "" <==> b == [])
  }

  /** What is assumed of the libraries: blocks can be decrypted, and encoded bytes decoded. */
  ghost predicate Sound(p: Primitives) {
    && (forall key: Bytes, b: Block :: IsKey(key) ==> p.decryptBlock(key, p.encryptBlock(key, b)) == b)
    && (forall b :: DecodesEncoded(p, b))
  }

  // ----- Padding

  /** As many bytes as are missing to the next full block, at least one; each of them says how many there are. */
  function Pad(text: Bytes): Bytes {
    var padding := BLOCK_SIZE - |text| % BLOCK_SIZE;
    text + seq(padding, _ => padding as bv8)
  }

  /** Cuts off as many bytes as the last one says, without looking at the others. */
  function Trim(text: Bytes): Outcome<Bytes> {
    if text == [] then Panics
    else
      var padding := text[|text| - 1] as int;
      if padding > |text| then Panics else Returns(text[..|text| - padding])
  }

  lemma ByteRoundTrip(n: nat)
    requires n <= BLOCK_SIZE
    ensures (n as bv8) as int == n
  {
  }

  lemma TrimUndoesPad(text: Bytes)
    ensures |Pad(text)| % BLOCK_SIZE == 0 && |text| < |Pad(text)| <= |text| + BLOCK_SIZE
    ensures Trim(Pad(text)) == Returns(text)
  {
    var padding := BLOCK_SIZE - |text| % BLOCK_SIZE;
    ByteRoundTrip(padding);
    assert Pad(text)[..|text|] == text;
  }

  /** A block-aligned text ends in a valid padding: the only texts that section 6.3 of RFC 5652 lets through. */
  predicate WellPadded(text: Bytes) {
    && text != []
    && var padding := text[|text| - 1] as int;
       1 <= padding <= BLOCK_SIZE && padding <= |text|
       && forall i :: |text| - padding <= i < |text| ==> text[i] == text[|text| - 1]
  }

  lemma ByteBack(b: bv8)
    ensures (b as int) as bv8 == b
  {
  }

  lemma MissingBytes(size: nat, padding: nat)
    requires size % BLOCK_SIZE == 0 && 1 <= padding <= BLOCK_SIZE && padding <= size
    ensures BLOCK_SIZE - (size - padding) % BLOCK_SIZE == padding
  {
  }

  lemma SplitsInto(text: Bytes, size: nat, b: bv8)
    requires size <= |text| && forall i :: size <= i < |text| ==> text[i] == b
    ensures text == text[..size] + seq(|text| - size, _ => b)
  {
  }

  lemma WellPaddedIsPadded(text: Bytes)
    requires |text| % BLOCK_SIZE == 0 && WellPadded(text)
    ensures Trim(text).Returns? && Pad(Trim(text).value) == text
  {
    var last := text[|text| - 1];
    var padding := last as int;
    var trimmed := text[..|text| - padding];
    MissingBytes(|text|, padding);
    ByteBack(last);
    SplitsInto(text, |text| - padding, last);
    assert Pad(trimmed) == trimmed + seq(padding, _ => last);
  }

  lemma PaddedIsWellPadded(text: Bytes)
    ensures WellPadded(Pad(text))
  {
    var padding := BLOCK_SIZE - |text| % BLOCK_SIZE;
    ByteRoundTrip(padding);
  }

  /** Trimming accepts more than padding produces; these are the texts on which the two agree. */
  lemma PadUndoesTrimExactlyWhen(text: Bytes)
    requires |text| % BLOCK_SIZE == 0
    ensures WellPadded(text) <==> Trim(text).Returns? && Pad(Trim(text).value) == text
  {
    if WellPadded(text) {
      WellPaddedIsPadded(text);
    } else if Trim(text).Returns? {
      PaddedIsWellPadded(Trim(text).value);
    }
  }

  // ----- Cipher block chaining (section 6.2 of NIST SP 800-38A)

  function Xor(a: Bytes, b: Bytes): (r: Bytes)
    requires |a| == |b|
    ensures |r| == |a|
  {
    seq(|a|, i requires 0 <= i < |a| => a[i] ^ b[i])
  }

  lemma XorTwice(a: Bytes, b: Bytes)
    requires |a| == |b|
    ensures Xor(Xor(a, b), b) == a
  {
    forall i | 0 <= i < |a| ensures Xor(Xor(a, b), b)[i] == a[i] {
      XorByteTwice(a[i], b[i]);
    }
  }

  lemma XorByteTwice(x: bv8, y: bv8)
    ensures (x ^ y) ^ y == x
  {
  }

  /** The chaining value of the next block is the block just encrypted. */
  function Chain(p: Primitives, key: Bytes, iv: Block, text: Bytes): (r: Bytes)
    requires |text| % BLOCK_SIZE == 0
    ensures |r| == |text|
    decreases |text|
  {
    if text == [] then []
    else
      var block := p.encryptBlock(key, Xor(text[..BLOCK_SIZE], iv));
      block + Chain(p, key, block, text[BLOCK_SIZE..])
  }

  function Unchain(p: Primitives, key: Bytes, iv: Block, text: Bytes): (r: Bytes)
    requires |text| % BLOCK_SIZE == 0
    ensures |r| == |text|
    decreases |text|
  {
    if text == [] then []
    else
      var block: Block := text[..BLOCK_SIZE];
      Xor(p.decryptBlock(key, block), iv) + Unchain(p, key, block, text[BLOCK_SIZE..])
  }

  /** The blocks that one key encrypts, another key decrypts. */
  ghost predicate Unlocks(p: Primitives, key: Bytes, other: Bytes) {
    forall b: Block :: p.decryptBlock(other, p.encryptBlock(key, b)) == b
  }

  lemma {:induction false} UnchainUndoesChain(p: Primitives, key: Bytes, other: Bytes, iv: Block, text: Bytes)
    requires Unlocks(p, key, other) && |text| % BLOCK_SIZE == 0
    ensures Unchain(p, other, iv, Chain(p, key, iv, text)) == text
    decreases |text|
  {
    if text != [] {
      var x: Block := Xor(text[..BLOCK_SIZE], iv);
      var block: Block := p.encryptBlock(key, x);
      var first: Bytes := block;
      var rest := Chain(p, key, block, text[BLOCK_SIZE..]);
      UnchainUndoesChain(p, key, other, block, text[BLOCK_SIZE..]);
      XorTwice(text[..BLOCK_SIZE], iv);
      assert (first + rest)[..BLOCK_SIZE] == block && (first + rest)[BLOCK_SIZE..] == rest;
      assert text == text[..BLOCK_SIZE] + text[BLOCK_SIZE..];
    }
  }

  lemma SliceOfAppended(first: Bytes, rest: Bytes, i: nat, j: nat)
    requires |first| <= i <= j <= |first| + |rest|
    ensures (first + rest)[i..j] == rest[i - |first|..j - |first|]
  {
  }

  lemma SliceOfTail(text: Bytes, i: nat, j: nat)
    requires BLOCK_SIZE <= i <= j <= |text|
    ensures text[BLOCK_SIZE..][i - BLOCK_SIZE..j - BLOCK_SIZE] == text[i..j]
  {
  }

  lemma WholeBlocks(at: nat, size: nat)
    requires at % BLOCK_SIZE == 0 && size % BLOCK_SIZE == 0 && at < size
    ensures at + BLOCK_SIZE <= size
    ensures at > 0 ==> at >= BLOCK_SIZE && (at - BLOCK_SIZE) % BLOCK_SIZE == 0
  {
  }

  /** What is added to the block at `at` before it is encrypted: the block encrypted before it, or the vector. */
  function Previous(iv: Block, r: Bytes, at: nat): Bytes
    requires at <= |r| && (at > 0 ==> at >= BLOCK_SIZE)
  {
    if at == 0 then iv else r[at - BLOCK_SIZE..at]
  }

  lemma PreviousOfAppended(iv: Block, first: Block, rest: Bytes, at: nat)
    requires BLOCK_SIZE <= at <= BLOCK_SIZE + |rest| && (at > BLOCK_SIZE ==> at >= 2 * BLOCK_SIZE)
    ensures Previous(iv, first + rest, at) == Previous(first, rest, at - BLOCK_SIZE)
  {
    if at > BLOCK_SIZE {
      SliceOfAppended(first, rest, at - BLOCK_SIZE, at);
    }
  }

  lemma {:induction false} BlocksAreChained(p: Primitives, key: Bytes, iv: Block, text: Bytes, at: nat)
    requires |text| % BLOCK_SIZE == 0 && at % BLOCK_SIZE == 0 && at < |text|
    ensures at + BLOCK_SIZE <= |text| && (at > 0 ==> at >= BLOCK_SIZE)
    ensures var r := Chain(p, key, iv, text);
            r[at..at + BLOCK_SIZE] == p.encryptBlock(key, Xor(text[at..at + BLOCK_SIZE], Previous(iv, r, at)))
    decreases at
  {
    WholeBlocks(at, |text|);
    var block := p.encryptBlock(key, Xor(text[..BLOCK_SIZE], iv));
    var first: Bytes := block;
    var tail: Bytes := text[BLOCK_SIZE..];
    var rest: Bytes := Chain(p, key, block, tail);
    if at == 0 {
      assert (first + rest)[..BLOCK_SIZE] == first;
    } else {
      BlocksAreChained(p, key, block, tail, at - BLOCK_SIZE);
      SliceOfAppended(first, rest, at, at + BLOCK_SIZE);
      PreviousOfAppended(iv, block, rest, at);
      SliceOfTail(text, at, at + BLOCK_SIZE);
    }
  }

  // ----- One cipher

  /** The initialization vector is drawn at random, so it stands as a parameter. */
  function Encrypt(p: Primitives, c: Cipher, iv: Block, data: Bytes): EncryptedData {
    TrimUndoesPad(data);
    EncryptedData(p.encode(Chain(p, c.key, iv, Pad(data))), p.encode(iv), c.metadata)
  }

  /** Panics on a vector or a text that does not fit the block size, and where trimming does. */
  function Decrypt(p: Primitives, c: Cipher, data: EncryptedData): Outcome<Bytes> {
    if data.metadata != c.metadata then Fails(MetadataDiffers)
    else if data.iv == "" then Fails(NoInitializationVector)
    else match p.decode(data.data)
      case None => Fails(BadData)
      case Some(text) =>
        match p.decode(data.iv)
        case None => Fails(BadInitializationVector)
        case Some(iv) =>
          if |iv| != BLOCK_SIZE || |text| % BLOCK_SIZE != 0 then Panics else Trim(Unchain(p, c.key, iv, text))
  }

  /** Data of any length comes back, from any cipher of the same name and version whose key unlocks the first one's. */
  lemma DecryptUndoesEncrypt(p: Primitives, c: Cipher, other: Cipher, iv: Block, data: Bytes)
    requires Sound(p) && other.metadata == c.metadata && Unlocks(p, c.key, other.key)
    ensures Decrypt(p, other, Encrypt(p, c, iv, data)) == Returns(data)
  {
    TrimUndoesPad(data);
    var text := Chain(p, c.key, iv, Pad(data));
    assert DecodesEncoded(p, text) && DecodesEncoded(p, iv);
    UnchainUndoesChain(p, c.key, other.key, iv, Pad(data));
  }

  /** Data that was never encrypted here ends in a panic exactly in these cases. */
  lemma DecryptPanicsExactlyWhen(p: Primitives, c: Cipher, data: EncryptedData)
    ensures Decrypt(p, c, data).Panics? <==>
              && data.metadata == c.metadata && data.iv != "" && p.decode(data.data).Some? && p.decode(data.iv).Some?
              && var text, iv := p.decode(data.data).value, p.decode(data.iv).value;
                 || |iv| != BLOCK_SIZE || |text| % BLOCK_SIZE != 0 || text == []
                 || (p.decryptBlock(c.key, text[|text| - BLOCK_SIZE..])[BLOCK_SIZE - 1]
                     ^ (if |text| == BLOCK_SIZE then iv else text[|text| - 2 * BLOCK_SIZE..|text| - BLOCK_SIZE])[BLOCK_SIZE - 1])
                    as int > |text|
  {
    if p.decode(data.data).Some? && p.decode(data.iv).Some? {
      var text, iv := p.decode(data.data).value, p.decode(data.iv).value;
      if |iv| == BLOCK_SIZE && |text| % BLOCK_SIZE == 0 && text != [] {
        LastByte(p, c.key, iv, text);
      }
    }
  }

  /** Which error a decryption ends in, the first that applies. */
  lemma DecryptFailsExactlyWhen(p: Primitives, c: Cipher, data: EncryptedData)
    ensures var r := Decrypt(p, c, data);
            var known, text, iv := data.metadata == c.metadata, p.decode(data.data), p.decode(data.iv);
            && (r == Fails(MetadataDiffers) <==> !known)
            && (r == Fails(NoInitializationVector) <==> known && data.iv == "")
            && (r == Fails(BadData) <==> known && data.iv != "" && text.None?)
            && (r == Fails(BadInitializationVector) <==> known && data.iv != "" && text.Some? && iv.None?)
            && (r.Fails? ==> r.error in {MetadataDiffers, NoInitializationVector, BadData, BadInitializationVector})
  {
  }

  lemma {:induction false} LastByte(p: Primitives, key: Bytes, iv: Block, text: Bytes)
    requires |text| % BLOCK_SIZE == 0 && text != []
    ensures Unchain(p, key, iv, text)[|text| - 1] ==
              p.decryptBlock(key, text[|text| - BLOCK_SIZE..])[BLOCK_SIZE - 1]
              ^ (if |text| == BLOCK_SIZE then iv else text[|text| - 2 * BLOCK_SIZE..|text| - BLOCK_SIZE])[BLOCK_SIZE - 1]
    decreases |text|
  {
    var block: Block := text[..BLOCK_SIZE];
    var rest := text[BLOCK_SIZE..];
    if rest == [] {
      assert text[|text| - BLOCK_SIZE..] == block;
    } else {
      LastByte(p, key, block, rest);
      assert rest[|rest| - BLOCK_SIZE..] == text[|text| - BLOCK_SIZE..];
      assert |rest| == BLOCK_SIZE ==> text[|text| - 2 * BLOCK_SIZE..|text| - BLOCK_SIZE] == block;
      assert |rest| > BLOCK_SIZE ==>
          rest[|rest| - 2 * BLOCK_SIZE..|rest| - BLOCK_SIZE] == text[|text| - 2 * BLOCK_SIZE..|text| - BLOCK_SIZE];
    }
  }

  // ----- The set of ciphers

  function Primaries(configs: seq<Config>): seq<Config> {
    if configs == [] then []
    else
      var last := configs[|configs| - 1];
      Primaries(configs[..|configs| - 1]) + if last.primary then [last] else []
  }

  method FindPrimaryConfigs(configs: seq<Config>) returns (primaries: seq<Config>)
    ensures primaries == Primaries(configs)
  {
    primaries := [];
    for i := 0 to |configs|
      invariant primaries == Primaries(configs[..i])
    {
      assert configs[..i + 1][..i] == configs[..i];
      if configs[i].primary {
        primaries := primaries + [configs[i]];
      }
    }
    assert configs[..|configs|] == configs;
  }

  /** The one primary, if it is the only one: the others come before and after it. */
  ghost predicate OnlyPrimary(configs: seq<Config>, i: nat) {
    i < |configs| && configs[i].primary && forall j :: 0 <= j < |configs| && j != i ==> !configs[j].primary
  }

  lemma {:induction false} NoPrimaries(configs: seq<Config>)
    ensures Primaries(configs) == [] <==> forall j :: 0 <= j < |configs| ==> !configs[j].primary
  {
    if configs != [] {
      NoPrimaries(configs[..|configs| - 1]);
    }
  }

  lemma {:induction false} OnePrimary(configs: seq<Config>, i: nat)
    requires OnlyPrimary(configs, i)
    ensures Primaries(configs) == [configs[i]]
  {
    var front := configs[..|configs| - 1];
    if i == |configs| - 1 {
      NoPrimaries(front);
    } else {
      OnePrimary(front, i);
    }
  }

  lemma {:induction false} SinglePrimary(configs: seq<Config>) returns (i: nat)
    requires |Primaries(configs)| == 1
    ensures OnlyPrimary(configs, i)
  {
    var front := configs[..|configs| - 1];
    if configs[|configs| - 1].primary {
      i := |configs| - 1;
      NoPrimaries(front);
    } else {
      i := SinglePrimary(front);
    }
  }

  /** Exactly one primary is what the count of one means. */
  lemma OnePrimaryExactlyWhen(configs: seq<Config>)
    ensures |Primaries(configs)| == 1 <==> exists i: nat :: OnlyPrimary(configs, i)
  {
    if i: nat :| OnlyPrimary(configs, i) {
      OnePrimary(configs, i);
    } else if |Primaries(configs)| == 1 {
      var i := SinglePrimary(configs);
    }
  }

  /** The cipher of a configuration, whose material must be the text of a key of a size that AES has. */
  function CipherOf(p: Primitives, config: Config): Option<Cipher> {
    var key := p.decode(config.material);
    if key.Some? && IsKey(key.value) then Some(Cipher(key.value, Metadata(config.name, config.version))) else None
  }

  /** The set has the ciphers of the configurations, in their order. */
  ghost predicate IsSetOf(p: Primitives, configs: seq<Config>, set_: CipherSet) {
    && |set_.ciphers| == |configs|
    && (forall i :: 0 <= i < |configs| ==> CipherOf(p, configs[i]) == Some(set_.ciphers[i]))
    && |Primaries(configs)| == 1 && CipherOf(p, Primaries(configs)[0]) == Some(set_.primary)
  }

  method NewCipherSet(p: Primitives, configs: seq<Config>) returns (r: Outcome<CipherSet>)
    ensures r.Returns? <==> |Primaries(configs)| == 1 && forall c <- configs :: CipherOf(p, c).Some?
    ensures r.Returns? <==>
              && (exists i: nat :: OnlyPrimary(configs, i))
              && forall c <- configs :: p.decode(c.material).Some? && |p.decode(c.material).value| in {16, 24, 32}
    ensures r.Returns? ==> IsSetOf(p, configs, r.value)
    ensures !r.Panics?
    ensures r == Fails(NoConfigs) <==> configs == []
    ensures r == Fails(NoPrimary) <==> configs != [] && Primaries(configs) == []
    ensures r == Fails(ManyPrimaries) <==> |Primaries(configs)| >= 2
    ensures r == Fails(PrimaryUnusable) <==> |Primaries(configs)| == 1 && CipherOf(p, Primaries(configs)[0]).None?
    ensures r.Fails? && r.error.ConfigUnusable? <==>
              && |Primaries(configs)| == 1 && CipherOf(p, Primaries(configs)[0]).Some?
              && exists c <- configs :: CipherOf(p, c).None?
    ensures forall name :: r == Fails(ConfigUnusable(name)) ==>
              exists i :: 0 <= i < |configs| && configs[i].name == name && CipherOf(p, configs[i]).None?
                          && forall j :: 0 <= j < i ==> CipherOf(p, configs[j]).Some?
  {
    OnePrimaryExactlyWhen(configs);
    if configs == [] {
      return Fails(NoConfigs);
    }
    var primaries := FindPrimaryConfigs(configs);
    if primaries == [] {
      return Fails(NoPrimary);
    }
    if |primaries| >= 2 {
      return Fails(ManyPrimaries);
    }
    var primary := CipherOf(p, primaries[0]);
    if primary.None? {
      ghost var i := SinglePrimary(configs);
      OnePrimary(configs, i);
      return Fails(PrimaryUnusable);
    }
    var ciphers := [];
    for i := 0 to |configs|
      invariant |ciphers| == i
      invariant forall j :: 0 <= j < i ==> CipherOf(p, configs[j]) == Some(ciphers[j])
    {
      var c := CipherOf(p, configs[i]);
      if c.None? {
        return Fails(ConfigUnusable(configs[i].name));
      }
      ciphers := ciphers + [c.value];
    }
    return Returns(CipherSet(ciphers, primary.value));
  }

  /** The first cipher of a name and version, if there is one. */
  function Selected(ciphers: seq<Cipher>, metadata: Metadata): Option<Cipher> {
    if ciphers == [] then None
    else if ciphers[0].metadata == metadata then Some(ciphers[0])
    else Selected(ciphers[1..], metadata)
  }

  /** The cipher that has the data's name and version decides; which others there are makes no difference. */
  function DecryptedWith(p: Primitives, set_: CipherSet, data: EncryptedData): Outcome<Bytes> {
    var c := Selected(set_.ciphers, data.metadata);
    if c.Some? then Decrypt(p, c.value, data) else Fails(NoCipherMatches(data.metadata))
  }

  method DecryptWithSet(p: Primitives, set_: CipherSet, data: EncryptedData) returns (r: Outcome<Bytes>)
    ensures r == DecryptedWith(p, set_, data)
  {
    for i := 0 to |set_.ciphers|
      invariant Selected(set_.ciphers, data.metadata) == Selected(set_.ciphers[i..], data.metadata)
    {
      var c := set_.ciphers[i];
      if c.metadata == data.metadata {
        return Decrypt(p, c, data);
      }
      assert set_.ciphers[i..][1..] == set_.ciphers[i + 1..];
    }
    return Fails(NoCipherMatches(data.metadata));
  }

  /** Only the primary cipher encrypts. */
  function EncryptWithSet(p: Primitives, set_: CipherSet, iv: Block, data: Bytes): EncryptedData {
    Encrypt(p, set_.primary, iv, data)
  }

  ghost predicate Matches(config: Config, metadata: Metadata) {
    config.name == metadata.name && config.version == metadata.version
  }

  /** The first configuration of that name and version. */
  ghost predicate FirstMatch(configs: seq<Config>, metadata: Metadata, i: nat) {
    i < |configs| && Matches(configs[i], metadata) && forall j :: 0 <= j < i ==> !Matches(configs[j], metadata)
  }

  lemma {:induction false} SelectedIsFirst(ciphers: seq<Cipher>, metadata: Metadata, i: nat)
    requires i < |ciphers| && ciphers[i].metadata == metadata
    requires forall j :: 0 <= j < i ==> ciphers[j].metadata != metadata
    ensures Selected(ciphers, metadata) == Some(ciphers[i])
  {
    if i > 0 {
      SelectedIsFirst(ciphers[1..], metadata, i - 1);
    }
  }

  lemma {:induction false} NothingSelected(ciphers: seq<Cipher>, metadata: Metadata)
    requires forall c <- ciphers :: c.metadata != metadata
    ensures Selected(ciphers, metadata) == None
  {
    if ciphers != [] {
      NothingSelected(ciphers[1..], metadata);
    }
  }

  lemma FirstMatchIsSelected(p: Primitives, configs: seq<Config>, set_: CipherSet, metadata: Metadata, i: nat)
    requires IsSetOf(p, configs, set_) && FirstMatch(configs, metadata, i)
    ensures Selected(set_.ciphers, metadata) == Some(set_.ciphers[i]) && set_.ciphers[i].metadata == metadata
  {
    forall j | 0 <= j <= i
      ensures set_.ciphers[j].metadata == Metadata(configs[j].name, configs[j].version)
      ensures j < i ==> !Matches(configs[j], metadata)
    {
      assert CipherOf(p, configs[j]) == Some(set_.ciphers[j]);
    }
    SelectedIsFirst(set_.ciphers, metadata, i);
  }

  /** Keys can be rotated: what an old primary encrypted, any later set decrypts if its first configuration of the old
      primary's name and version has the same key, wherever it stands and whatever the new primary is. */
  lemma RotatedSetDecrypts(p: Primitives, old_: CipherSet, configs: seq<Config>, set_: CipherSet, i: nat, iv: Block, data: Bytes)
    requires Sound(p) && IsSetOf(p, configs, set_) && FirstMatch(configs, old_.primary.metadata, i)
    requires p.decode(configs[i].material) == Some(old_.primary.key)
    ensures DecryptedWith(p, set_, EncryptWithSet(p, old_, iv, data)) == Returns(data)
  {
    FirstMatchIsSelected(p, configs, set_, old_.primary.metadata, i);
    assert CipherOf(p, configs[i]) == Some(set_.ciphers[i]);
    DecryptUndoesEncrypt(p, old_.primary, set_.ciphers[i], iv, data);
  }

  /** Once no configuration has the old primary's name and version any more, its data is out of reach. */
  lemma DroppedKeysFail(p: Primitives, old_: CipherSet, configs: seq<Config>, set_: CipherSet, iv: Block, data: Bytes)
    requires IsSetOf(p, configs, set_) && forall c <- configs :: !Matches(c, old_.primary.metadata)
    ensures DecryptedWith(p, set_, EncryptWithSet(p, old_, iv, data)) == Fails(NoCipherMatches(old_.primary.metadata))
  {
    forall c | c in set_.ciphers ensures c.metadata != old_.primary.metadata {
      var j :| 0 <= j < |configs| && set_.ciphers[j] == c;
      assert CipherOf(p, configs[j]) == Some(set_.ciphers[j]);
      assert !Matches(configs[j], old_.primary.metadata);
    }
    NothingSelected(set_.ciphers, old_.primary.metadata);
  }

  // ----- A set and its own data

  lemma RoundTripUnlocksBlock(p: Primitives, c: Cipher, other: Cipher, iv: Block, b: Block)
    requires Sound(p)
    requires Decrypt(p, other, Encrypt(p, c, iv, Xor(b, iv))) == Returns(Xor(b, iv))
    ensures p.decryptBlock(other.key, p.encryptBlock(c.key, b)) == b
  {
    var data := Xor(b, iv);
    TrimUndoesPad(data);
    var padded := Pad(data);
    var text := Chain(p, c.key, iv, padded);
    assert DecodesEncoded(p, text) && DecodesEncoded(p, iv);
    assert padded[..BLOCK_SIZE] == data;
    XorTwice(b, iv);
    var block: Bytes := p.encryptBlock(c.key, b);
    assert text[..BLOCK_SIZE] == block;
    var plain := Unchain(p, other.key, iv, text);
    var unlocked: Bytes := p.decryptBlock(other.key, block);
    assert plain[..BLOCK_SIZE] == Xor(unlocked, iv);
    assert plain[..BLOCK_SIZE] == data;
    XorTwice(unlocked, iv);
  }

  ghost predicate ReadsItsOwn(p: Primitives, set_: CipherSet) {
    forall iv: Block, data: Bytes :: DecryptedWith(p, set_, EncryptWithSet(p, set_, iv, data)) == Returns(data)
  }

  /** A set reads back what it wrote, whatever it wrote, exactly when the key of the first configuration with its
      primary's name and version unlocks what the primary's key locks. */
  lemma OwnDataComesBackExactlyWhen(p: Primitives, configs: seq<Config>, set_: CipherSet, i: nat)
    requires Sound(p) && IsSetOf(p, configs, set_) && FirstMatch(configs, set_.primary.metadata, i)
    ensures ReadsItsOwn(p, set_) <==> Unlocks(p, set_.primary.key, set_.ciphers[i].key)
    ensures p.decode(configs[i].material) == Some(set_.primary.key) ==> Unlocks(p, set_.primary.key, set_.ciphers[i].key)
  {
    FirstMatchIsSelected(p, configs, set_, set_.primary.metadata, i);
    var c := set_.ciphers[i];
    if Unlocks(p, set_.primary.key, c.key) {
      forall iv: Block, data: Bytes ensures DecryptedWith(p, set_, EncryptWithSet(p, set_, iv, data)) == Returns(data) {
        DecryptUndoesEncrypt(p, set_.primary, c, iv, data);
      }
    } else {
      var b: Block :| p.decryptBlock(c.key, p.encryptBlock(set_.primary.key, b)) != b;
      var iv: Block := b;
      if DecryptedWith(p, set_, EncryptWithSet(p, set_, iv, Xor(b, iv))) == Returns(Xor(b, iv)) {
        RoundTripUnlocksBlock(p, set_.primary, c, iv, b);
        assert false;
      }
    }
  }

  /** The primary is one of the configurations, so one of its name and version is always there. */
  lemma PrimaryIsMatched(p: Primitives, configs: seq<Config>, set_: CipherSet) returns (i: nat)
    requires IsSetOf(p, configs, set_)
    ensures FirstMatch(configs, set_.primary.metadata, i)
  {
    var k := SinglePrimary(configs);
    OnePrimary(configs, k);
    i := 0;
    while !Matches(configs[i], set_.primary.metadata)
      invariant i <= k
      invariant forall j :: 0 <= j < i ==> !Matches(configs[j], set_.primary.metadata)
      decreases k - i
    {
      i := i + 1;
    }
  }

  function MetadataOf(config: Config): Metadata {
    Metadata(config.name, config.version)
  }

  /** For the keys of this set: two different ones do different things to some block. */
  ghost predicate DifferentKeysDiffer(p: Primitives, set_: CipherSet) {
    forall c, d :: c in set_.ciphers && d in set_.ciphers && c.key != d.key ==> !Unlocks(p, c.key, d.key)
  }

  /** What there is to check before a set is used: with `k` the primary configuration and `i` the first of its name and
      version, the set reads back all it writes exactly if both have the same key. */
  lemma OwnDataComesBackByConfigs(p: Primitives, configs: seq<Config>, set_: CipherSet) returns (k: nat, i: nat)
    requires Sound(p) && IsSetOf(p, configs, set_) && DifferentKeysDiffer(p, set_)
    ensures OnlyPrimary(configs, k) && FirstMatch(configs, MetadataOf(configs[k]), i)
    ensures ReadsItsOwn(p, set_) <==> p.decode(configs[i].material) == p.decode(configs[k].material)
  {
    k := SinglePrimary(configs);
    OnePrimary(configs, k);
    i := PrimaryIsMatched(p, configs, set_);
    OwnDataComesBackExactlyWhen(p, configs, set_, i);
    assert CipherOf(p, configs[i]) == Some(set_.ciphers[i]) && CipherOf(p, configs[k]) == Some(set_.ciphers[k]);
    assert set_.ciphers[i] in set_.ciphers && set_.ciphers[k] in set_.ciphers;
  }

  // ----- An instance of the parameters, to show that a set may fail to read its own data

  function Repeat(b: bv8): Block {
    seq(BLOCK_SIZE, _ => b)
  }

  function Mask(key: Bytes, b: Block): Block {
    if |key| < BLOCK_SIZE then b else Xor(b, key[..BLOCK_SIZE])
  }

  function Letters(b: Bytes): string {
    seq(|b|, i requires 0 <= i < |b| => b[i] as char)
  }

  function FromLetters(s: string): Option<Bytes> {
    Some(seq(|s|, i requires 0 <= i < |s| => (s[i] as int % 256) as bv8))
  }

  /** Blocks are combined with the first bytes of the key, and every byte is written as one letter. */
  const SAMPLE := Primitives(Mask, Mask, Letters, FromLetters)

  lemma SampleIsSound()
    ensures Sound(SAMPLE)
  {
    forall key: Bytes, b: Block | IsKey(key) ensures Mask(key, Mask(key, b)) == b {
      XorTwice(b, key[..BLOCK_SIZE]);
    }
    forall b: Bytes ensures DecodesEncoded(SAMPLE, b) {
      LettersReadBack(b);
    }
  }

  lemma LettersReadBack(b: Bytes)
    ensures FromLetters(Letters(b)) == Some(b)
  {
    assert FromLetters(Letters(b)).value == b;
  }

  lemma SampleKeysDiffer()
    ensures !Unlocks(SAMPLE, Repeat(0), Repeat(1)) && !Unlocks(SAMPLE, Repeat(1), Repeat(0))
  {
    var b := Repeat(0);
    assert SAMPLE.decryptBlock(Repeat(1), SAMPLE.encryptBlock(Repeat(0), b))[0] == 1;
    assert SAMPLE.decryptBlock(Repeat(0), SAMPLE.encryptBlock(Repeat(1), b))[0] == 1;
  }

  /** Ones on top of the padding make its last byte 17: one more than there are. */
  lemma WrongKeyPanics(metadata: Metadata, iv: Block)
    ensures Decrypt(SAMPLE, Cipher(Repeat(0), metadata), Encrypt(SAMPLE, Cipher(Repeat(1), metadata), iv, [])) == Panics
  {
    var text := Chain(SAMPLE, Repeat(1), iv, Pad([]));
    LettersReadBack(text);
    LettersReadBack(iv);
    assert Unchain(SAMPLE, Repeat(0), iv, text)[BLOCK_SIZE - 1] == 17;
  }

  /** Two configurations share a name and version and the second is the primary: the set is accepted and panics on
      everything it encrypts from the empty input. */
  lemma ShadowedPrimaryFails(iv: Block) returns (configs: seq<Config>, set_: CipherSet)
    ensures Sound(SAMPLE) && IsSetOf(SAMPLE, configs, set_) && DifferentKeysDiffer(SAMPLE, set_)
    ensures DecryptedWith(SAMPLE, set_, EncryptWithSet(SAMPLE, set_, iv, [])) == Panics
  {
    var zeros, ones := Repeat(0), Repeat(1);
    var metadata := Metadata("general", 1);
    configs := [Config("general", 1, false, Letters(zeros)), Config("general", 1, true, Letters(ones))];
    set_ := CipherSet([Cipher(zeros, metadata), Cipher(ones, metadata)], Cipher(ones, metadata));
    SampleIsSound();
    SampleKeysDiffer();
    LettersReadBack(zeros);
    LettersReadBack(ones);
    assert OnlyPrimary(configs, 1);
    OnePrimary(configs, 1);
    WrongKeyPanics(metadata, iv);
  }
}
