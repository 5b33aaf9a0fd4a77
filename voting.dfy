/**
 * VotingContract: builders of unsigned transactions for the voting contract, and three reads
 * of its state. The node and the contract are seen through a `Ledger` value: what the RPC
 * calls and the contract's view functions answer during one call.
 */
module Voting {
  import opened Base

  /** The gas limit both builders put in the transaction. */
  const TransactionGas: nat := 200000

  const InvalidVoterAddressMessage := "Invalid voter address format"
  const InvalidAddressMessage := "Invalid address format"

  /** 2^256: the ABI type `uint256` holds the integers below it. */
  const Uint256Bound: int := 0x1_0000_0000_0000_0000_0000_0000_0000_0000_0000_0000_0000_0000_0000_0000_0000_0000

  type uint256 = x: int | 0 <= x < Uint256Bound

  predicate IsUint256(v: int)
  {
    0 <= v < Uint256Bound
  }

  /** The text of a call the contract reverts (web3's ContractLogicError). */
  const RevertMessage := "execution reverted"

  /** binascii's message for a character that is not a hexadecimal digit. */
  const NonHexadecimalMessage := "Non-hexadecimal digit found"

  // ---------------------------------------------------------------------------------------
  // Addresses (Web3.is_address on a string)

  predicate IsHexDigit(c: char)
  {
    '0' <= c <= '9' || 'a' <= c <= 'f' || 'A' <= c <= 'F'
  }

  predicate IsHexText(s: string)
  {
    forall i :: 0 <= i < |s| ==> IsHexDigit(s[i])
  }

  /** `remove_0x_prefix`: drops a leading "0x" or "0X". */
  function StripHexPrefix(s: string): (r: string)
    ensures |r| == |s| || |r| == |s| - 2
    ensures r == s[|s| - |r|..]
    ensures |r| == |s| - 2 <==> |s| >= 2 && s[0] == '0' && (s[1] == 'x' || s[1] == 'X')
  {
    if |s| >= 2 && s[0] == '0' && (s[1] == 'x' || s[1] == 'X') then s[2..] else s
  }

  /** `is_hex_address`: an optional 0x prefix and exactly 40 hexadecimal digits of either case. */
  predicate IsHexAddress(s: string)
  {
    var body := StripHexPrefix(s);
    |body| == 40 && IsHexText(body)
  }

  predicate HasLowerLetter(s: string)
  {
    exists i :: 0 <= i < |s| && 'a' <= s[i] <= 'z'
  }

  predicate HasUpperLetter(s: string)
  {
    exists i :: 0 <= i < |s| && 'A' <= s[i] <= 'Z'
  }

  /** `is_checksum_formatted_address`: a hex address whose digits mix lower- and upper-case letters. */
  predicate ChecksumFormatted(s: string)
  {
    IsHexAddress(s) && HasLowerLetter(StripHexPrefix(s)) && HasUpperLetter(StripHexPrefix(s))
  }

  /**
   * `Web3.is_address` on a string: a mixed-case address must carry a valid EIP-55 checksum
   * (`checksumOk`, the Keccak-based test), any other hex address is accepted as it is.
   */
  predicate IsAddress(s: string, checksumOk: string -> bool)
    ensures IsAddress(s, checksumOk) ==> IsHexAddress(s)
    ensures IsHexAddress(s) && !ChecksumFormatted(s) ==> IsAddress(s, checksumOk)
    ensures ChecksumFormatted(s) ==> (IsAddress(s, checksumOk) <==> checksumOk(s))
  {
    if ChecksumFormatted(s) then checksumOk(s) else IsHexAddress(s)
  }

  /** Addresses that are not mixed case are accepted or refused whatever the checksum test says. */
  lemma AddressWithoutChecksum(s: string, checksumOk: string -> bool)
    requires !ChecksumFormatted(s)
    ensures IsAddress(s, checksumOk) <==> IsHexAddress(s)
  {
  }

  /** A valid address always has 40 hexadecimal digits after the optional prefix. */
  lemma AddressShape(s: string, checksumOk: string -> bool)
    requires IsAddress(s, checksumOk)
    ensures |s| == 40 || |s| == 42
    ensures IsHexText(StripHexPrefix(s))
  {
  }

  // ---------------------------------------------------------------------------------------
  // Hexadecimal to bytes (web3's to_bytes(hexstr=...))

  /** The value of a hexadecimal digit of either case: the digit written for it, lower-cased. */
  function HexValue(c: char): (v: nat)
    requires IsHexDigit(c)
    ensures v < 16
    ensures HexChar(v) == c || HexChar(v) == (c as int + 32) as char
  {
    if '0' <= c <= '9' then c as int - '0' as int
    else if 'a' <= c <= 'f' then c as int - 'a' as int + 10
    else c as int - 'A' as int + 10
  }

  /** The lower-case digit of a value below 16. */
  function HexChar(v: nat): (c: char)
    requires v < 16
    ensures '0' <= c <= '9' || 'a' <= c <= 'f'
    ensures c != 'x' && c != 'X'
  {
    if v < 10 then ('0' as int + v) as char else ('a' as int + v - 10) as char
  }

  /** Reading back the digit written for a value gives the value. */
  lemma HexValueOfHexChar(v: nat)
    requires v < 16
    ensures IsHexDigit(HexChar(v)) && HexValue(HexChar(v)) == v
  {
  }

  /** An upper-case digit has the value of its lower-case form. */
  lemma HexValueIgnoresCase(c: char)
    requires 'A' <= c <= 'F'
    ensures IsHexDigit((c as int + 32) as char) && HexValue(c) == HexValue((c as int + 32) as char)
  {
  }

  /** `binascii.unhexlify` of an even-length string: None where it raises. */
  function Unhexlify(s: string): (r: Option<seq<byte>>)
    requires |s| % 2 == 0
    ensures r.Some? <==> IsHexText(s)
    ensures r.Some? ==> |r.value| == |s| / 2
    decreases |s|
  {
    if s == [] then Some([])
    else if !IsHexDigit(s[0]) || !IsHexDigit(s[1]) then None
    else
      assert forall i :: 2 <= i < |s| ==> s[i] == s[2..][i - 2];
      match Unhexlify(s[2..])
      case None => None
      case Some(rest) => Some([HexValue(s[0]) * 16 + HexValue(s[1])] + rest)
  }

  /** Two lower-case digits per byte, most significant first (`bytes.hex()`). */
  function ToHex(bytes: seq<byte>): (s: string)
    ensures |s| == 2 * |bytes|
    ensures IsHexText(s)
  {
    if bytes == [] then []
    else [HexChar(bytes[0] / 16), HexChar(bytes[0] % 16)] + ToHex(bytes[1..])
  }

  /** Decoding the hex form of any bytes gives the bytes back. */
  lemma {:induction false} UnhexlifyToHex(bytes: seq<byte>)
    ensures Unhexlify(ToHex(bytes)) == Some(bytes)
  {
    if bytes != [] {
      var s := ToHex(bytes);
      assert s[2..] == ToHex(bytes[1..]);
      UnhexlifyToHex(bytes[1..]);
      HexValueOfHexChar(bytes[0] / 16);
      HexValueOfHexChar(bytes[0] % 16);
      assert HexValue(s[0]) * 16 + HexValue(s[1]) == bytes[0];
      assert [bytes[0]] + bytes[1..] == bytes;
    }
  }

  /** The padded form of a string has even length and is hexadecimal exactly when the unprefixed string is. */
  lemma PaddedHex(hexstr: string)
    ensures var unprefixed := StripHexPrefix(hexstr);
      var padded := if |hexstr| % 2 == 1 then "0" + unprefixed else unprefixed;
      |padded| % 2 == 0 && (IsHexText(padded) <==> IsHexText(unprefixed))
  {
    var unprefixed := StripHexPrefix(hexstr);
    if |hexstr| % 2 == 1 {
      var padded := "0" + unprefixed;
      if IsHexText(unprefixed) {
        forall i | 0 <= i < |padded| ensures IsHexDigit(padded[i]) {
          if i > 0 { assert padded[i] == unprefixed[i - 1]; }
        }
      }
      if IsHexText(padded) {
        forall i | 0 <= i < |unprefixed| ensures IsHexDigit(unprefixed[i]) {
          assert padded[i + 1] == unprefixed[i];
        }
      }
    }
  }

  /**
   * `hexstr_to_bytes`: drop the 0x prefix, left-pad with "0" when the (prefixed) string has
   * odd length, then unhexlify.
   */
  function HexToBytes(hexstr: string): (r: Outcome<seq<byte>>)
    ensures r.Raised? ==> r.detail == NonHexadecimalMessage
    ensures r.Returned? <==> IsHexText(StripHexPrefix(hexstr))
    ensures r.Returned? ==> |r.value| == (|StripHexPrefix(hexstr)| + 1) / 2
  {
    var unprefixed := StripHexPrefix(hexstr);
    var padded := if |hexstr| % 2 == 1 then "0" + unprefixed else unprefixed;
    PaddedHex(hexstr);
    match Unhexlify(padded)
    case None => Raised(NonHexadecimalMessage)
    case Some(bytes) => Returned(bytes)
  }

  /** A hexadecimal string never starts with a 0x prefix. */
  lemma StripHexText(s: string)
    requires IsHexText(s)
    ensures StripHexPrefix(s) == s
    ensures StripHexPrefix("0x" + s) == s
  {
    if |s| >= 2 { assert IsHexDigit(s[1]); }
    assert ("0x" + s)[2..] == s;
  }

  /** The hex form of bytes, with or without a 0x prefix, converts back to those bytes. */
  lemma HexToBytesRoundTrip(bytes: seq<byte>)
    ensures HexToBytes(ToHex(bytes)) == Returned(bytes)
    ensures HexToBytes("0x" + ToHex(bytes)) == Returned(bytes)
  {
    var s := ToHex(bytes);
    UnhexlifyToHex(bytes);
    StripHexText(s);
    assert HexToBytes(s) == Returned(bytes) by {
      assert |s| % 2 == 0 && StripHexPrefix(s) == s;
    }
    assert HexToBytes("0x" + s) == Returned(bytes) by {
      assert |"0x" + s| % 2 == 0 && StripHexPrefix("0x" + s) == s;
    }
  }

  /** An odd number of digits is read as if a leading 0 were there: "abc" is 0x0a 0xbc. */
  lemma OddLengthIsPadded()
    ensures HexToBytes("abc") == Returned([0x0a, 0xbc])
    ensures HexToBytes("0xabc") == Returned([0x0a, 0xbc])
  {
    var padded: string := "0abc";
    var none: string := [];
    var high: byte := HexValue('0') * 16 + HexValue('a');
    var low: byte := HexValue('b') * 16 + HexValue('c');
    assert high == 0x0a && low == 0xbc;
    assert StripHexPrefix("abc") == "abc" && "0" + "abc" == padded;
    assert "0xabc"[2..] == "abc";
    assert padded[2..] == "bc" && "bc"[2..] == none;
    var empty: seq<byte> := [];
    assert Unhexlify(none) == Some(empty);
    assert Unhexlify("bc").Some?;
    assert Unhexlify("bc") == Some([low] + empty);
    assert [low] + empty == [low];
    assert padded[0] == '0' && padded[1] == 'a';
    assert Unhexlify(padded[2..]) == Some([low]);
    assert Unhexlify(padded).Some?;
    assert Unhexlify(padded) == Some([high] + [low]);
    assert [high] + [low] == [0x0a, 0xbc];
    assert StripHexPrefix("0xabc") == "abc";
    assert HexToBytes("abc") == Returned([high] + [low]);
  }

  // ---------------------------------------------------------------------------------------
  // The ledger and replies

  /** A voter struct as `voters(address)` returns it: `voter[0]`, `voter[1]`. */
  datatype VoterRow = VoterRow(isRegistered: bool, hasVoted: bool)

  /** `getCandidate(i)`: `(name, vote_count)`. */
  datatype Candidate = Candidate(name: string, voteCount: nat)

  /**
   * What the node and the contract answer during one call. `fault` is an exception raised by
   * the connection or by web3 itself on the first call that reaches the node.
   */
  datatype Ledger = Ledger(
    checksumOk: string -> bool,            // EIP-55 checksum test of a mixed-case address
    contractAddress: string,               // Config.CONTRACT_ADDRESS
    chainId: nat,                          // filled in by build_transaction
    gasPrice: nat,                         // w3.eth.gas_price
    transactionCount: string -> nat,       // w3.eth.get_transaction_count(address)
    voterRow: string -> VoterRow,          // voters(address).call()
    candidateCount: uint256,               // getCandidateCount().call()
    candidates: map<nat, Candidate>,       // getCandidate(i).call(); reverts where absent
    argumentError: string,                 // str(e) of web3 refusing an int its ABI type cannot hold
    fault: Option<string>)                 // str(e) of an exception raised on the way to the node

  /** The contract function a transaction calls, with its arguments. */
  datatype ContractCall = CastVoteCall(candidateId: uint256) | RegisterVoterCall(voter: string, biometricHash: seq<byte>)

  /** An unsigned transaction as build_transaction returns it. */
  datatype Transaction = Transaction(
    to: string, from: string, gas: nat, gasPrice: nat, nonce: nat, chainId: nat, call: ContractCall)

  /** `{'success': True, ...}` with its payload, or `{'success': False, 'error': ...}`. */
  datatype Reply<T> = Ok(data: T) | Failed(error: string)

  /** `build_transaction` with the given sender: gas 200000, the node's gas price, the sender's count as nonce. */
  function BuildTransaction(ledger: Ledger, from: string, call: ContractCall): (t: Transaction)
    ensures t.to == ledger.contractAddress && t.from == from && t.call == call
    ensures t.gas == 200000 && t.gasPrice == ledger.gasPrice && t.chainId == ledger.chainId
    ensures t.nonce == ledger.transactionCount(from)
  {
    Transaction(ledger.contractAddress, from, TransactionGas, ledger.gasPrice,
                ledger.transactionCount(from), ledger.chainId, call)
  }

  // ---------------------------------------------------------------------------------------
  // Builders

  /**
   * `cast_vote`: the address check first, then an unsigned `castVote(candidate_id)` from the
   * voter. web3 refuses an id that `uint256` cannot hold before it reaches the node. Nothing is
   * signed or sent, and the voter's registration is not consulted.
   */
  function CastVote(ledger: Ledger, voterAddress: string, candidateId: int): (r: Reply<Transaction>)
    ensures !IsAddress(voterAddress, ledger.checksumOk) ==> r == Failed(InvalidVoterAddressMessage)
    ensures IsAddress(voterAddress, ledger.checksumOk) && !IsUint256(candidateId) ==> r == Failed(ledger.argumentError)
    ensures IsAddress(voterAddress, ledger.checksumOk) && IsUint256(candidateId) && ledger.fault.Some?
            ==> r == Failed(ledger.fault.value)
    ensures r.Ok? <==> IsAddress(voterAddress, ledger.checksumOk) && IsUint256(candidateId) && ledger.fault.None?
    ensures r.Ok? ==> && r.data.from == voterAddress && r.data.to == ledger.contractAddress
                      && r.data.gas == 200000 && r.data.gasPrice == ledger.gasPrice
                      && r.data.nonce == ledger.transactionCount(voterAddress)
                      && r.data.call == CastVoteCall(candidateId)
  {
    if !IsAddress(voterAddress, ledger.checksumOk) then Failed(InvalidVoterAddressMessage)
    else if !IsUint256(candidateId) then Failed(ledger.argumentError)
    else if ledger.fault.Some? then Failed(ledger.fault.value)
    else Ok(BuildTransaction(ledger, voterAddress, CastVoteCall(candidateId)))
  }

  /** Whatever the contract holds about voters, cast_vote answers the same: a voter who has voted gets a transaction too. */
  lemma CastVoteIgnoresVoterState(ledger: Ledger, rows: string -> VoterRow, voterAddress: string, candidateId: int)
    ensures CastVote(ledger.(voterRow := rows), voterAddress, candidateId) == CastVote(ledger, voterAddress, candidateId)
  {
  }

  /**
   * `register_voter`: both addresses checked first, then the hash converted to bytes, then an
   * unsigned `registerVoter(voter, hash_bytes)` from the admin.
   */
  function RegisterVoter(ledger: Ledger, adminAddress: string, voterAddress: string, biometricHash: string)
    : (r: Reply<Transaction>)
    ensures !(IsAddress(adminAddress, ledger.checksumOk) && IsAddress(voterAddress, ledger.checksumOk))
            ==> r == Failed(InvalidAddressMessage)
    ensures r.Ok? <==> && IsAddress(adminAddress, ledger.checksumOk) && IsAddress(voterAddress, ledger.checksumOk)
                       && IsHexText(StripHexPrefix(biometricHash)) && ledger.fault.None?
    ensures && IsAddress(adminAddress, ledger.checksumOk) && IsAddress(voterAddress, ledger.checksumOk)
            && IsHexText(StripHexPrefix(biometricHash)) && ledger.fault.Some?
            ==> r == Failed(ledger.fault.value)
    ensures r.Ok? ==> && r.data.from == adminAddress && r.data.to == ledger.contractAddress
                      && r.data.gas == 200000 && r.data.gasPrice == ledger.gasPrice
                      && r.data.nonce == ledger.transactionCount(adminAddress)
                      && r.data.call.RegisterVoterCall? && r.data.call.voter == voterAddress
                      && Returned(r.data.call.biometricHash) == HexToBytes(biometricHash)
  {
    if !(IsAddress(adminAddress, ledger.checksumOk) && IsAddress(voterAddress, ledger.checksumOk)) then
      Failed(InvalidAddressMessage)
    else
      match HexToBytes(biometricHash)
      case Raised(detail) => Failed(detail)
      case Returned(hashBytes) =>
        if ledger.fault.Some? then Failed(ledger.fault.value)
        else Ok(BuildTransaction(ledger, adminAddress, RegisterVoterCall(voterAddress, hashBytes)))
  }

  /** The hash a transaction carries is exactly the digest whose hex form was passed in. */
  lemma RegisterVoterCarriesDigest(ledger: Ledger, adminAddress: string, voterAddress: string, digest: seq<byte>)
    requires IsAddress(adminAddress, ledger.checksumOk) && IsAddress(voterAddress, ledger.checksumOk)
    requires ledger.fault.None?
    ensures RegisterVoter(ledger, adminAddress, voterAddress, ToHex(digest))
         == Ok(BuildTransaction(ledger, adminAddress, RegisterVoterCall(voterAddress, digest)))
    ensures RegisterVoter(ledger, adminAddress, voterAddress, "0x" + ToHex(digest))
         == Ok(BuildTransaction(ledger, adminAddress, RegisterVoterCall(voterAddress, digest)))
  {
    HexToBytesRoundTrip(digest);
  }

  /** A hash with a non-hexadecimal character is refused with binascii's message, before any call to the node. */
  lemma RegisterVoterRefusesNonHex(ledger: Ledger, adminAddress: string, voterAddress: string, biometricHash: string)
    requires IsAddress(adminAddress, ledger.checksumOk) && IsAddress(voterAddress, ledger.checksumOk)
    requires !IsHexText(StripHexPrefix(biometricHash))
    ensures RegisterVoter(ledger, adminAddress, voterAddress, biometricHash) == Failed(NonHexadecimalMessage)
  {
  }

  // ---------------------------------------------------------------------------------------
  // Reads

  /** One entry of get_candidates: `{'id': i, 'name': name, 'vote_count': vote_count}`. */
  datatype CandidateEntry = CandidateEntry(id: nat, name: string, voteCount: nat)

  /** Every index below the contract's count answers getCandidate. */
  predicate AllListed(ledger: Ledger)
  {
    forall i: nat :: i < ledger.candidateCount ==> i in ledger.candidates
  }

  /**
   * `get_candidates`: asks for the count, then each of `getCandidate(0)` ... in turn, and
   * lists them with their positions as ids; a fault or a revert ends it with the error.
   */
  method GetCandidates(ledger: Ledger) returns (r: Reply<seq<CandidateEntry>>)
    ensures ledger.fault.Some? ==> r == Failed(ledger.fault.value)
    ensures ledger.fault.None? && !AllListed(ledger) ==> r == Failed(RevertMessage)
    ensures r.Ok? <==> ledger.fault.None? && AllListed(ledger)
    ensures r.Ok? ==> |r.data| == ledger.candidateCount
    ensures r.Ok? ==> forall i :: 0 <= i < |r.data| ==>
              r.data[i] == CandidateEntry(i, ledger.candidates[i].name, ledger.candidates[i].voteCount)
  {
    if ledger.fault.Some? {
      return Failed(ledger.fault.value);
    }
    var candidateCount := ledger.candidateCount;
    var candidates: seq<CandidateEntry> := [];
    for i := 0 to candidateCount
      invariant |candidates| == i
      invariant forall j: nat :: j < i ==> j in ledger.candidates
      invariant forall j :: 0 <= j < i ==>
                  candidates[j] == CandidateEntry(j, ledger.candidates[j].name, ledger.candidates[j].voteCount)
    {
      if i !in ledger.candidates {
        return Failed(RevertMessage);
      }
      var candidate := ledger.candidates[i];
      candidates := candidates + [CandidateEntry(i, candidate.name, candidate.voteCount)];
    }
    return Ok(candidates);
  }

  /** `verify_voter`: `(is_registered, has_voted)` straight from the contract's voter struct. */
  function VerifyVoter(ledger: Ledger, voterAddress: string): (r: Reply<VoterRow>)
    ensures r.Ok? <==> ledger.fault.None?
    ensures r.Ok? ==> && r.data.isRegistered == ledger.voterRow(voterAddress).isRegistered
                      && r.data.hasVoted == ledger.voterRow(voterAddress).hasVoted
    ensures r.Failed? ==> r.error == ledger.fault.value
  {
    if ledger.fault.Some? then Failed(ledger.fault.value)
    else
      var voter := ledger.voterRow(voterAddress);
      Ok(VoterRow(voter.isRegistered, voter.hasVoted))
  }

  /**
   * `get_vote_count`: the name and count of one candidate. web3 refuses an id `uint256` cannot
   * hold before the call; the contract reverts an unknown one.
   */
  function GetVoteCount(ledger: Ledger, candidateId: int): (r: Reply<Candidate>)
    ensures !IsUint256(candidateId) ==> r == Failed(ledger.argumentError)
    ensures IsUint256(candidateId) && ledger.fault.Some? ==> r == Failed(ledger.fault.value)
    ensures r.Ok? <==> IsUint256(candidateId) && ledger.fault.None? && candidateId in ledger.candidates
    ensures r.Ok? ==> r.data == ledger.candidates[candidateId]
    ensures IsUint256(candidateId) && ledger.fault.None? && !r.Ok? ==> r == Failed(RevertMessage)
  {
    if !IsUint256(candidateId) then Failed(ledger.argumentError)
    else if ledger.fault.Some? then Failed(ledger.fault.value)
    else if candidateId !in ledger.candidates then Failed(RevertMessage)
    else Ok(ledger.candidates[candidateId])
  }

  /** get_vote_count of a listed id agrees with that id's entry in get_candidates. */
  lemma VoteCountAgreesWithListing(ledger: Ledger, entries: seq<CandidateEntry>, i: nat)
    requires ledger.fault.None? && AllListed(ledger)
    requires |entries| == ledger.candidateCount
    requires forall j :: 0 <= j < |entries| ==>
               entries[j] == CandidateEntry(j, ledger.candidates[j].name, ledger.candidates[j].voteCount)
    requires i < |entries|
    ensures GetVoteCount(ledger, i) == Ok(Candidate(entries[i].name, entries[i].voteCount))
  {
  }
}
