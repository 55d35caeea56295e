/**
 * The escrow program's interface as the client sees it: the two account records, the
 * four instructions, their 8-byte discriminators, the program's error table and the
 * seeds of its derived addresses. Account data and instruction data are the
 * discriminator followed by the Borsh encoding of the fields in declaration order.
 */
module EscrowIdl {
  import opened Wrappers
  import opened Utf8
  import opened Borsh

  type Pubkey = Bytes32

  // ---- discriminators ----

  const InitializeTransferSolTag: seq<Byte> := [138, 96, 28, 208, 233, 163, 159, 237]
  const InitializeTransferSplTag: seq<Byte> := [250, 179, 34, 95, 244, 49, 121, 61]
  const RedeemFundsSolTag: seq<Byte> := [201, 132, 159, 241, 223, 196, 178, 29]
  const RedeemFundsSplTag: seq<Byte> := [129, 43, 205, 106, 199, 166, 129, 13]
  const EscrowAccountTag: seq<Byte> := [36, 69, 48, 18, 128, 225, 125, 135]
  const EscrowSolAccountTag: seq<Byte> := [254, 87, 94, 62, 155, 182, 159, 157]

  /** The six discriminators, instructions first, then accounts. */
  function Discriminators(): (d: seq<seq<Byte>>)
    ensures |d| == 6 && forall i :: 0 <= i < 6 ==> |d[i]| == 8
  {
    [InitializeTransferSolTag, InitializeTransferSplTag, RedeemFundsSolTag, RedeemFundsSplTag,
     EscrowAccountTag, EscrowSolAccountTag]
  }

  /** No two discriminators are equal, so dispatch on the first 8 bytes is unambiguous. */
  lemma DiscriminatorsDistinct()
    ensures forall i, j :: 0 <= i < j < 6 ==> Discriminators()[i] != Discriminators()[j]
  {
    var d := Discriminators();
    forall i, j | 0 <= i < j < 6 ensures d[i] != d[j] {
      assert d[i][0] != d[j][0];
    }
  }

  datatype DataError =
    | Malformed(cause: DecodeError)
    | DiscriminatorMismatch
    | UnknownInstruction

  function Lift<T>(r: Decoded<T>): Result<(T, seq<Byte>), DataError>
  {
    match r
    case Ok(v) => Ok(v)
    case Err(e) => Err(Malformed(e))
  }

  /** The first 8 bytes, which must equal `tag`. */
  function ExpectTag(data: seq<Byte>, tag: seq<Byte>): (r: Result<seq<Byte>, DataError>)
    requires |tag| == 8
    ensures r.Ok? <==> |data| >= 8 && data[..8] == tag
    ensures r.Ok? ==> r.value == data[8..]
  {
    if |data| < 8 then Err(Malformed(NotEnoughData))
    else if data[..8] != tag then Err(DiscriminatorMismatch)
    else Ok(data[8..])
  }

  lemma ExpectTagOfAppend(tag: seq<Byte>, body: seq<Byte>)
    requires |tag| == 8
    ensures ExpectTag(tag + body, tag) == Ok(body)
  {
    assert (tag + body)[..8] == tag;
    assert (tag + body)[8..] == body;
  }

  // ---- accounts ----

  /** The record of an SPL-token escrow. */
  datatype EscrowAccount = EscrowAccount(
    sender: Pubkey,
    amount: U64,
    expirationTime: I64,
    isRedeemed: bool,
    tokenMint: Pubkey,
    hashOfSecret: Bytes32,
    bump: Byte)

  /** The record of a native-SOL escrow: the same fields without `tokenMint`. */
  datatype EscrowSolAccount = EscrowSolAccount(
    sender: Pubkey,
    amount: U64,
    expirationTime: I64,
    isRedeemed: bool,
    hashOfSecret: Bytes32,
    bump: Byte)

  function EncodeEscrowAccount(a: EscrowAccount): (r: seq<Byte>)
    ensures |r| == 8 + 32 + 8 + 8 + 1 + 32 + 32 + 1 == 122
    ensures r[..8] == EscrowAccountTag
  {
    EscrowAccountTag + (EncodeBytes32(a.sender) + (EncodeU64(a.amount) + (EncodeI64(a.expirationTime)
      + (EncodeBool(a.isRedeemed) + (EncodeBytes32(a.tokenMint) + (EncodeBytes32(a.hashOfSecret)
      + EncodeU8(a.bump)))))))
  }

  function DecodeEscrowAccount(data: seq<Byte>): Result<EscrowAccount, DataError>
  {
    var s0 :- ExpectTag(data, EscrowAccountTag);
    var sender :- Lift(DecodeBytes32(s0));
    var amount :- Lift(DecodeU64(sender.1));
    var expiration :- Lift(DecodeI64(amount.1));
    var redeemed :- Lift(DecodeBool(expiration.1));
    var mint :- Lift(DecodeBytes32(redeemed.1));
    var hash :- Lift(DecodeBytes32(mint.1));
    var bump :- Lift(DecodeU8(hash.1));
    Ok(EscrowAccount(sender.0, amount.0, expiration.0, redeemed.0, mint.0, hash.0, bump.0))
  }

  /** Decoding reads back every field; bytes after the record are ignored. */
  lemma EscrowAccountRoundTrip(a: EscrowAccount, rest: seq<Byte>)
    ensures DecodeEscrowAccount(EncodeEscrowAccount(a) + rest) == Ok(a)
  {
    var f7 := EncodeU8(a.bump) + rest;
    var f6 := EncodeBytes32(a.hashOfSecret) + f7;
    var f5 := EncodeBytes32(a.tokenMint) + f6;
    var f4 := EncodeBool(a.isRedeemed) + f5;
    var f3 := EncodeI64(a.expirationTime) + f4;
    var f2 := EncodeU64(a.amount) + f3;
    var f1 := EncodeBytes32(a.sender) + f2;
    assert EncodeEscrowAccount(a) + rest == EscrowAccountTag + f1;
    ExpectTagOfAppend(EscrowAccountTag, f1);
    Bytes32RoundTrip(a.sender, f2);
    U64RoundTrip(a.amount, f3);
    I64RoundTrip(a.expirationTime, f4);
    BoolRoundTrip(a.isRedeemed, f5);
    Bytes32RoundTrip(a.tokenMint, f6);
    Bytes32RoundTrip(a.hashOfSecret, f7);
    U8RoundTrip(a.bump, rest);
  }

  function EncodeEscrowSolAccount(a: EscrowSolAccount): (r: seq<Byte>)
    ensures |r| == 8 + 32 + 8 + 8 + 1 + 32 + 1 == 90
    ensures r[..8] == EscrowSolAccountTag
  {
    EscrowSolAccountTag + (EncodeBytes32(a.sender) + (EncodeU64(a.amount) + (EncodeI64(a.expirationTime)
      + (EncodeBool(a.isRedeemed) + (EncodeBytes32(a.hashOfSecret) + EncodeU8(a.bump))))))
  }

  function DecodeEscrowSolAccount(data: seq<Byte>): Result<EscrowSolAccount, DataError>
  {
    var s0 :- ExpectTag(data, EscrowSolAccountTag);
    var sender :- Lift(DecodeBytes32(s0));
    var amount :- Lift(DecodeU64(sender.1));
    var expiration :- Lift(DecodeI64(amount.1));
    var redeemed :- Lift(DecodeBool(expiration.1));
    var hash :- Lift(DecodeBytes32(redeemed.1));
    var bump :- Lift(DecodeU8(hash.1));
    Ok(EscrowSolAccount(sender.0, amount.0, expiration.0, redeemed.0, hash.0, bump.0))
  }

  lemma EscrowSolAccountRoundTrip(a: EscrowSolAccount, rest: seq<Byte>)
    ensures DecodeEscrowSolAccount(EncodeEscrowSolAccount(a) + rest) == Ok(a)
  {
    var f6 := EncodeU8(a.bump) + rest;
    var f5 := EncodeBytes32(a.hashOfSecret) + f6;
    var f4 := EncodeBool(a.isRedeemed) + f5;
    var f3 := EncodeI64(a.expirationTime) + f4;
    var f2 := EncodeU64(a.amount) + f3;
    var f1 := EncodeBytes32(a.sender) + f2;
    assert EncodeEscrowSolAccount(a) + rest == EscrowSolAccountTag + f1;
    ExpectTagOfAppend(EscrowSolAccountTag, f1);
    Bytes32RoundTrip(a.sender, f2);
    U64RoundTrip(a.amount, f3);
    I64RoundTrip(a.expirationTime, f4);
    BoolRoundTrip(a.isRedeemed, f5);
    Bytes32RoundTrip(a.hashOfSecret, f6);
    U8RoundTrip(a.bump, rest);
  }

  /** Data that does not start with a kind's discriminator is never read as that kind. */
  lemma DecodeRejectsForeignData(data: seq<Byte>)
    ensures (|data| < 8 || data[..8] != EscrowAccountTag) ==> DecodeEscrowAccount(data).Err?
    ensures (|data| < 8 || data[..8] != EscrowSolAccountTag) ==> DecodeEscrowSolAccount(data).Err?
  {
  }

  /** A byte other than 0 or 1 where `isRedeemed` sits makes decoding fail with that byte. */
  lemma DecodeRejectsBadBool(sender: Pubkey, amount: U64, exp: I64, b: Byte, rest: seq<Byte>)
    requires b > 1
    ensures DecodeEscrowAccount(EscrowAccountTag + EncodeBytes32(sender) + EncodeU64(amount)
      + EncodeI64(exp) + [b] + rest) == Err(Malformed(InvalidBool(b)))
  {
    var f4 := [b] + rest;
    var f3 := EncodeI64(exp) + f4;
    var f2 := EncodeU64(amount) + f3;
    var f1 := EncodeBytes32(sender) + f2;
    assert EscrowAccountTag + EncodeBytes32(sender) + EncodeU64(amount) + EncodeI64(exp) + [b] + rest
      == EscrowAccountTag + f1;
    ExpectTagOfAppend(EscrowAccountTag, f1);
    Bytes32RoundTrip(sender, f2);
    U64RoundTrip(amount, f3);
    I64RoundTrip(exp, f4);
  }

  // ---- instructions ----

  datatype Instruction =
    | InitializeTransferSol(amount: U64, expirationTime: I64, hashOfSecret: Bytes32)
    | InitializeTransferSpl(amount: U64, expirationTime: I64, hashOfSecret: Bytes32)
    | RedeemFundsSol(secret: string)
    | RedeemFundsSpl(secret: string)
  {
    /** A redeem secret must fit the u32 byte count of a Borsh string. */
    predicate Encodable() {
      (RedeemFundsSol? || RedeemFundsSpl?) ==> EncodableString(secret)
    }

    function Tag(): (t: seq<Byte>)
      ensures |t| == 8
    {
      match this
      case InitializeTransferSol(_, _, _) => InitializeTransferSolTag
      case InitializeTransferSpl(_, _, _) => InitializeTransferSplTag
      case RedeemFundsSol(_) => RedeemFundsSolTag
      case RedeemFundsSpl(_) => RedeemFundsSplTag
    }
  }

  function EncodeInitArgs(amount: U64, expirationTime: I64, hashOfSecret: Bytes32): (r: seq<Byte>)
    ensures |r| == 48
  {
    EncodeU64(amount) + (EncodeI64(expirationTime) + EncodeBytes32(hashOfSecret))
  }

  function EncodeInstruction(ix: Instruction): (r: seq<Byte>)
    requires ix.Encodable()
    ensures |r| >= 8 && r[..8] == ix.Tag()
    ensures ix.InitializeTransferSol? || ix.InitializeTransferSpl? ==> |r| == 56
    ensures ix.RedeemFundsSol? || ix.RedeemFundsSpl? ==> |r| == 12 + |Utf8.Encode(ix.secret)|
  {
    match ix
    case InitializeTransferSol(amount, exp, hash) => ix.Tag() + EncodeInitArgs(amount, exp, hash)
    case InitializeTransferSpl(amount, exp, hash) => ix.Tag() + EncodeInitArgs(amount, exp, hash)
    case RedeemFundsSol(secret) => ix.Tag() + EncodeString(secret)
    case RedeemFundsSpl(secret) => ix.Tag() + EncodeString(secret)
  }

  function DecodeInitArgs(s: seq<Byte>): Result<(U64, I64, Bytes32), DataError>
  {
    var amount :- Lift(DecodeU64(s));
    var expiration :- Lift(DecodeI64(amount.1));
    var hash :- Lift(DecodeBytes32(expiration.1));
    Ok((amount.0, expiration.0, hash.0))
  }

  lemma InitArgsRoundTrip(amount: U64, exp: I64, hash: Bytes32, rest: seq<Byte>)
    ensures DecodeInitArgs(EncodeInitArgs(amount, exp, hash) + rest) == Ok((amount, exp, hash))
  {
    var f3 := EncodeBytes32(hash) + rest;
    var f2 := EncodeI64(exp) + f3;
    assert EncodeInitArgs(amount, exp, hash) + rest == EncodeU64(amount) + f2;
    U64RoundTrip(amount, f2);
    I64RoundTrip(exp, f3);
    Bytes32RoundTrip(hash, rest);
  }

  /** Dispatch on the first 8 bytes, then decode that instruction's arguments. */
  function DecodeInstruction(data: seq<Byte>): (r: Result<Instruction, DataError>)
    ensures r.Ok? ==> |data| >= 8 && data[..8] == r.value.Tag()
  {
    if |data| < 8 then Err(Malformed(NotEnoughData))
    else
      var tag, body := data[..8], data[8..];
      if tag == InitializeTransferSolTag then
        var args :- DecodeInitArgs(body);
        Ok(InitializeTransferSol(args.0, args.1, args.2))
      else if tag == InitializeTransferSplTag then
        var args :- DecodeInitArgs(body);
        Ok(InitializeTransferSpl(args.0, args.1, args.2))
      else if tag == RedeemFundsSolTag then
        var secret :- Lift(DecodeString(body));
        Ok(RedeemFundsSol(secret.0))
      else if tag == RedeemFundsSplTag then
        var secret :- Lift(DecodeString(body));
        Ok(RedeemFundsSpl(secret.0))
      else
        Err(UnknownInstruction)
  }

  lemma InitializeRoundTrip(ix: Instruction, rest: seq<Byte>)
    requires ix.InitializeTransferSol? || ix.InitializeTransferSpl?
    ensures DecodeInstruction(EncodeInstruction(ix) + rest) == Ok(ix)
  {
    var args := EncodeInitArgs(ix.amount, ix.expirationTime, ix.hashOfSecret);
    var data := EncodeInstruction(ix) + rest;
    assert data == ix.Tag() + (args + rest);
    assert data[..8] == ix.Tag() && data[8..] == args + rest;
    assert data[0] == ix.Tag()[0];
    InitArgsRoundTrip(ix.amount, ix.expirationTime, ix.hashOfSecret, rest);
  }

  lemma RedeemRoundTrip(ix: Instruction, rest: seq<Byte>)
    requires ix.RedeemFundsSol? || ix.RedeemFundsSpl?
    requires ix.Encodable()
    ensures DecodeInstruction(EncodeInstruction(ix) + rest) == Ok(ix)
  {
    var body := EncodeString(ix.secret) + rest;
    assert EncodeInstruction(ix) + rest == ix.Tag() + body;
    StringRoundTrip(ix.secret, rest);
    DecodeRedeem(ix.Tag(), body, ix.secret);
  }

  /** A redeem tag followed by a string that decodes gives that redeem instruction. */
  lemma DecodeRedeem(tag: seq<Byte>, body: seq<Byte>, secret: string)
    requires tag == RedeemFundsSolTag || tag == RedeemFundsSplTag
    requires DecodeString(body).Ok? && DecodeString(body).value.0 == secret
    ensures DecodeInstruction(tag + body)
            == Ok(if tag == RedeemFundsSolTag then RedeemFundsSol(secret) else RedeemFundsSpl(secret))
  {
    var data := tag + body;
    assert data[..8] == tag && data[8..] == body;
    assert tag[0] != InitializeTransferSolTag[0] && tag[0] != InitializeTransferSplTag[0];
    assert tag == RedeemFundsSplTag ==> tag[0] != RedeemFundsSolTag[0];
  }

  /** Every instruction decodes back to itself, whatever bytes follow it. */
  lemma InstructionRoundTrip(ix: Instruction, rest: seq<Byte>)
    requires ix.Encodable()
    ensures DecodeInstruction(EncodeInstruction(ix) + rest) == Ok(ix)
  {
    if ix.InitializeTransferSol? || ix.InitializeTransferSpl? {
      InitializeRoundTrip(ix, rest);
    } else {
      RedeemRoundTrip(ix, rest);
    }
  }

  /** Account data is never taken for an instruction: the account tags are no instruction's. */
  lemma AccountDataIsNoInstruction(data: seq<Byte>)
    requires |data| >= 8
    requires data[..8] == EscrowAccountTag || data[..8] == EscrowSolAccountTag
    ensures DecodeInstruction(data) == Err(UnknownInstruction)
  {
    DiscriminatorsDistinct();
    var d := Discriminators();
    assert d[0] != d[4] && d[1] != d[4] && d[2] != d[4] && d[3] != d[4];
    assert d[0] != d[5] && d[1] != d[5] && d[2] != d[5] && d[3] != d[5];
  }

  // ---- errors ----

  datatype ProgramError = AlreadyRedeemed | NotExpired | InvalidSecret

  function ErrorCode(e: ProgramError): int
  {
    match e
    case AlreadyRedeemed => 6000
    case NotExpired => 6001
    case InvalidSecret => 6002
  }

  function ErrorMessage(e: ProgramError): string
  {
    match e
    case AlreadyRedeemed => "The funds have already been redeemed."
    case NotExpired => "The transfer has not expired yet."
    case InvalidSecret => "The secret is invalid"
  }

  /** The inverse of ErrorCode: the table is a bijection between 6000..6002 and the errors. */
  function ErrorFromCode(code: int): (r: Option<ProgramError>)
    ensures r.Some? <==> 6000 <= code <= 6002
    ensures r.Some? ==> ErrorCode(r.value) == code
    ensures forall e :: ErrorCode(e) == code ==> r == Some(e)
  {
    if code == 6000 then Some(AlreadyRedeemed)
    else if code == 6001 then Some(NotExpired)
    else if code == 6002 then Some(InvalidSecret)
    else None
  }

  // ---- seeds ----

  /** The `seedEscrowSpl` constant. */
  const SeedEscrowSpl: seq<Byte> := [101, 115, 99, 114, 111, 119, 95, 115, 112, 108]

  lemma SeedEscrowSplIsText()
    ensures SeedEscrowSpl == Utf8.Encode("escrow_spl")
  {
    var text := "escrow_spl";
    Utf8.EncodeAscii(text);
  }

  /** The SPL token program's address, the constant middle seed of a token account. */
  const TokenProgramId: seq<Byte> := [
    6, 221, 246, 225, 215, 101, 161, 147, 217, 203, 225, 70, 206, 235, 121, 172,
    28, 180, 133, 237, 95, 91, 55, 145, 58, 140, 245, 133, 126, 255, 0, 169]

  /**
   * The seeds of an associated token account: its owner, the token program, the mint.
   * `escrowTokenAccount` is derived with the escrow account as owner and
   * `recipientTokenAccount` with the recipient as owner.
   */
  function TokenAccountSeeds(owner: Pubkey, tokenMint: Pubkey): (seeds: seq<seq<Byte>>)
    ensures |seeds| == 3 && forall i :: 0 <= i < 3 ==> |seeds[i]| == 32
  {
    [owner, TokenProgramId, tokenMint]
  }

  /** Distinct (owner, mint) pairs never share seeds, so their derived accounts differ. */
  lemma TokenAccountSeedsInjective(o1: Pubkey, m1: Pubkey, o2: Pubkey, m2: Pubkey)
    ensures TokenAccountSeeds(o1, m1) == TokenAccountSeeds(o2, m2) <==> o1 == o2 && m1 == m2
  {
    if TokenAccountSeeds(o1, m1) == TokenAccountSeeds(o2, m2) {
      assert TokenAccountSeeds(o1, m1)[0] == o2 && TokenAccountSeeds(o1, m1)[2] == m2;
    }
  }
}
