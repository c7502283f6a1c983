/**
 The client side of `create_proposal`: the Borsh encoders the web form uses
 and the instruction data it sends, together with a reader for that data
 (the layout the program's `create_proposal(description, duration_sec)`
 expects) against which the encoders are proved.

 The description arrives as the UTF-8 bytes the browser's encoder produced;
 the duration as the integer that the form hands to the big-integer library.
 */
module CreateProposalForm {
  import opened Wrappers
  import opened Borsh

  /** The instruction discriminator of `create_proposal`, taken from the program's interface description. */
  const CREATE_PROPOSAL_DISC: seq<Byte> := [132, 116, 68, 174, 216, 160, 198, 22]

  /**
   A Borsh string: a `u32` little-endian byte count, then the bytes.
   `None` when the count does not fit in a `u32` (the buffer write throws).
   */
  function EncodeStringBorsh(bytes: seq<Byte>): (encoded: Option<seq<Byte>>)
    ensures encoded.Some? <==> |bytes| < U32_LIMIT
    ensures encoded.Some? ==> |encoded.value| == 4 + |bytes|
    ensures encoded.Some? ==> FromLE(encoded.value[..4]) == |bytes| && encoded.value[4..] == bytes
  {
    if |bytes| < U32_LIMIT then
      var prefix := U32Bytes(|bytes|);
      assert (prefix + bytes)[..4] == prefix;
      Some(prefix + bytes)
    else
      None
  }

  /**
   Eight bytes of two's complement, least significant first.
   `None` outside the signed 64-bit range (the buffer write throws).
   */
  function EncodeI64LE(n: int): (encoded: Option<seq<Byte>>)
    ensures encoded.Some? <==> I64_MIN <= n <= I64_MAX
    ensures encoded.Some? ==> |encoded.value| == 8 && I64Value(encoded.value) == n
  {
    if I64_MIN <= n <= I64_MAX then Some(I64Bytes(n)) else None
  }

  /**
   The instruction data of `create_proposal`: discriminator, then the
   description, then the duration, in the order of the handler's parameters.
   */
  function CreateProposalData(description: seq<Byte>, durationSec: int): (data: Option<seq<Byte>>)
    ensures data.Some? <==> |description| < U32_LIMIT && I64_MIN <= durationSec <= I64_MAX
    ensures data.Some? ==> |data.value| == 20 + |description|
    ensures data.Some? ==> data.value[..8] == CREATE_PROPOSAL_DISC
  {
    match (EncodeStringBorsh(description), EncodeI64LE(durationSec))
    case (Some(descB), Some(durB)) =>
      var bytes := CREATE_PROPOSAL_DISC + descB + durB;
      assert bytes[..8] == CREATE_PROPOSAL_DISC;
      Some(bytes)
    case _ => None
  }

  /** The arguments of `create_proposal` as the program receives them. */
  datatype CreateProposalArgs = CreateProposalArgs(description: seq<Byte>, durationSec: I64)

  /**
   Reads `create_proposal` instruction data: the discriminator must match,
   then a Borsh string and an `i64` follow. Bytes after the duration are not read.
   */
  function DecodeCreateProposal(data: seq<Byte>): (args: Option<CreateProposalArgs>)
    ensures args.Some? ==> |data| >= 20 + |args.value.description| && data[..8] == CREATE_PROPOSAL_DISC
  {
    if |data| < 12 || data[..8] != CREATE_PROPOSAL_DISC then None
    else
      var len := FromLE(data[8..12]);
      if |data| < 20 + len then None
      else Some(CreateProposalArgs(data[12..12 + len], I64Value(data[12 + len..20 + len])))
  }

  /** The program reads back exactly the description and duration the form encoded. */
  lemma CreateProposalRoundTrip(description: seq<Byte>, durationSec: int)
    requires CreateProposalData(description, durationSec).Some?
    ensures DecodeCreateProposal(CreateProposalData(description, durationSec).value)
            == Some(CreateProposalArgs(description, durationSec))
  {
    var data := CreateProposalData(description, durationSec).value;
    var descB := EncodeStringBorsh(description).value;
    var durB := EncodeI64LE(durationSec).value;
    assert data == CREATE_PROPOSAL_DISC + descB + durB;
    var n := |description|;
    assert data[8..12] == descB[..4];
    assert data[12..12 + n] == descB[4..];
    assert data[12 + n..20 + n] == durB;
  }

  /** A `u32` count equal to the byte count is the prefix `EncodeStringBorsh` writes. */
  lemma EncodedStringOfPrefix(prefix: seq<Byte>, bytes: seq<Byte>)
    requires |prefix| == 4 && FromLE(prefix) == |bytes|
    ensures EncodeStringBorsh(bytes) == Some(prefix + bytes)
  {
    RadixOfWidths();
    LEOfFromLE(prefix);
  }

  /** The instruction data is the concatenation of whatever the two encoders produce. */
  lemma CreateProposalDataOfParts(description: seq<Byte>, durationSec: int, descB: seq<Byte>, durB: seq<Byte>)
    requires EncodeStringBorsh(description) == Some(descB) && EncodeI64LE(durationSec) == Some(durB)
    ensures CreateProposalData(description, durationSec) == Some(CREATE_PROPOSAL_DISC + descB + durB)
  {
  }

  /** Cutting a sequence at four points and gluing the pieces back gives its prefix. */
  lemma SplitFour(data: seq<Byte>, i: nat, j: nat, k: nat, l: nat)
    requires i <= j <= k <= l <= |data|
    ensures data[..l] == data[..i] + data[i..j] + data[j..k] + data[k..l]
  {
  }

  /** Conversely, whatever the program accepts is, up to trailing bytes, what the form would have sent. */
  lemma DecodedCreateProposalReencodes(data: seq<Byte>)
    requires DecodeCreateProposal(data).Some?
    ensures var args := DecodeCreateProposal(data).value;
            CreateProposalData(args.description, args.durationSec) == Some(data[..20 + |args.description|])
  {
    var n := FromLE(data[8..12]);
    var head, prefix, desc, dur := data[..8], data[8..12], data[12..12 + n], data[12 + n..20 + n];
    var args := DecodeCreateProposal(data).value;
    assert args == CreateProposalArgs(desc, I64Value(dur));
    EncodedStringOfPrefix(prefix, desc);
    I64BytesOfValue(dur);
    CreateProposalDataOfParts(desc, args.durationSec, prefix + desc, dur);
    SplitFour(data, 8, 12, 12 + n, 20 + n);
    assert head + prefix + desc + dur == CREATE_PROPOSAL_DISC + (prefix + desc) + dur;
  }

  /** Data with any other discriminator is not a `create_proposal` instruction. */
  lemma ForeignDiscriminatorRejected(data: seq<Byte>)
    requires |data| >= 8 && data[..8] != CREATE_PROPOSAL_DISC
    ensures DecodeCreateProposal(data) == None
  {
  }
}
