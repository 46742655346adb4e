/** The records of include/mermai/mermai_blockchain.hpp and the cryptography they are checked with. */
module Types {
  import opened Bytes

  datatype TxInput = TxInput(prevTxHash: Text, prevOutputIdx: u32, signature: Text, publicKey: Text)

  datatype TxOutput = TxOutput(address: Text, amount: u64)

  datatype Transaction = Transaction(
    id: Text, inputs: seq<TxInput>, outputs: seq<TxOutput>, fee: u64, timestamp: u64)

  datatype Vote = Vote(
    validatorAddress: Text, blockHash: Text, blockHeight: u32, timestamp: u64,
    validatorPublicKey: Text, signature: Text)

  datatype Block = Block(
    version: u32, height: u32, prevBlockHash: Text, merkleRoot: Text, timestamp: u64, nonce: u32,
    validatorAddress: Text, validatorStake: u64, validatorAge: u64,
    validatorPublicKey: Text, validatorSignature: Text, transactions: seq<Transaction>)

  /**
   SHA-256 and ECDSA, left arbitrary. `sha` answers 32 bytes; `validSig(key, payload, signature)`
   covers parsing the key and checking the signature; `wholeKey(key)` says that parsing the key
   consumes all of it.
   */
  datatype Crypto = Crypto(
    sha: Text -> Digest,
    validSig: (Text, Text, Text) -> bool,
    wholeKey: Text -> bool)

  /** Cryptography under which every signature is valid. */
  function Lenient(): Crypto
  {
    Crypto(_ => Zeros(32), (_, _, _) => true, _ => true)
  }

  datatype Option<+T> = None | Some(value: T)

  /** Two different members of `inputs` with one digest. */
  ghost predicate CollisionIn(sha: Text -> Digest, inputs: set<Text>)
  {
    exists x, y | x in inputs && y in inputs :: x != y && sha(x) == sha(y)
  }
}
