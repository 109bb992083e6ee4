/** Sidechain shares and miner addresses as values. */
module Shares {
  import opened GoInt
  import opened Wire
  import opened Difficulties

  datatype Address = Address(spendPublicKey: Hash, viewPublicKey: Hash)

  datatype Share = Share(
    sidechainId: Hash,
    majorVersion: uint8,
    minorVersion: uint8,
    timestamp: uint64,
    prevId: Hash,
    nonce: uint32,
    mainchainHeight: uint64,
    minerWallet: Address,
    txkeySecSeed: Hash,
    parent: Hash,
    uncles: seq<Hash>,
    sidechainHeight: uint64,
    difficulty: Difficulty,
    cumulativeDifficulty: Difficulty,
    merkleProof: seq<Hash>,
    mergeMiningExtra: map<Hash, Bytes>,
    sidechainExtraBuf: seq<uint32>)
}
