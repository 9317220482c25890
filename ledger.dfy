/**
 * The ledger engine of StockChain (src/server/blockchain.py): a chain of hash-linked
 * blocks and a pool of pending stock transactions. The pure part states what a block,
 * its hash, a valid transaction, a valid chain and a repaired chain are; the class
 * `Blockchain` holds the two lists and the block files and changes them in place.
 *
 * SHA-256 and the sorted-key JSON serialisation are library calls; they are the two
 * functions of a `Crypto` value and nothing is assumed about them.
 */
module Ledger {
  import opened Wrappers
  import Decimal

  /**
   * A transaction as a block's data list stores it: a JSON object of which the ledger
   * reads three keys. `None` is a key that is absent.
   */
  datatype Tx = Tx(userId: Option<string>, operationType: Option<string>, stockName: Option<string>)

  /** A block's `data`: the genesis marker string, or the list of its transactions. */
  datatype BlockData = Marker(text: string) | Txs(txs: seq<Tx>)

  datatype Block = Block(
    index: int,
    timestamp: string,
    data: BlockData,
    previousHash: string,
    proof: int,
    hash: string)

  /** The fields of a block that its hash covers: all of them except `hash`. */
  datatype Content = Content(index: int, timestamp: string, data: BlockData, previousHash: string, proof: int)

  /** SHA-256 as a hex digest, and `json.dumps(_, sort_keys=True)` of a block's content. */
  datatype Crypto = Crypto(sha256: string -> string, sortedJson: Content -> string)

  const GenesisText := "Genesis Block"
  const GenesisPreviousHash := "0"
  const GenesisProof := 100
  const ProofPrefix := "0000"
  const InvalidChainError := "Cannot create a block on an invalid blockchain."

  function ContentOf(b: Block): Content {
    Content(b.index, b.timestamp, b.data, b.previousHash, b.proof)
  }

  /** `hash(block)`: the digest of the block with its own `hash` field popped. */
  function Hash(h: Crypto, b: Block): string {
    h.sha256(h.sortedJson(ContentOf(b)))
  }

  /** Whatever a block's stored `hash` field says, it does not enter the block's digest. */
  lemma HashIgnoresHashField(h: Crypto, b: Block, stored: string)
    ensures Hash(h, b.(hash := stored)) == Hash(h, b)
  {
  }

  /** The stored `hash` of `b` is the digest of `b`. */
  predicate Sealed(h: Crypto, b: Block) {
    b.hash == Hash(h, b)
  }

  predicate AllSealed(h: Crypto, c: seq<Block>) {
    forall i :: 0 <= i < |c| ==> Sealed(h, c[i])
  }

  /** Sets the stored hash of a block to the block's digest. */
  function Seal(h: Crypto, b: Block): (r: Block)
    ensures Sealed(h, r)
    ensures ContentOf(r) == ContentOf(b)
  {
    b.(hash := Hash(h, b))
  }

  // ---------------------------------------------------------------------------
  // Transactions and proof of work

  /** `is_valid_transaction`, checking the keys in the order the source does. */
  function IsValidTransaction(tx: Tx): (r: bool)
    ensures r <==> (tx.operationType == Some("buy") || tx.operationType == Some("sell"))
                   && tx.stockName.Some? && tx.stockName.value != ""
  {
    if tx.operationType.None? then false
    else if tx.operationType.value !in ["buy", "sell"] then false
    else if tx.stockName.None? || tx.stockName.value == "" then false
    else true
  }

  predicate AllValid(txs: seq<Tx>) {
    forall k :: 0 <= k < |txs| ==> IsValidTransaction(txs[k])
  }

  /** `valid_proof`: the hex digest of `f'{last_proof}{proof}'` starts with four zeros. */
  predicate ValidProof(h: Crypto, lastProof: int, proof: int) {
    var digest := h.sha256(Decimal.IntToString(lastProof) + Decimal.IntToString(proof));
    |digest| >= |ProofPrefix| && digest[..|ProofPrefix|] == ProofPrefix
  }

  /** Some non-negative proof passes for `lastProof`, so the linear search ends. */
  ghost predicate Solvable(h: Crypto, lastProof: int) {
    exists p: nat :: ValidProof(h, lastProof, p)
  }

  /** `proof` is what a linear search from 0 finds: it passes and nothing smaller does. */
  predicate IsLeastProof(h: Crypto, lastProof: int, proof: int) {
    && proof >= 0
    && ValidProof(h, lastProof, proof)
    && forall q :: 0 <= q < proof ==> !ValidProof(h, lastProof, q)
  }

  /** The search result is determined by `lastProof` alone. */
  lemma LeastProofUnique(h: Crypto, lastProof: int, p: int, q: int)
    requires IsLeastProof(h, lastProof, p) && IsLeastProof(h, lastProof, q)
    ensures p == q
  {
  }

  // ---------------------------------------------------------------------------
  // Blocks

  /** The genesis block `create_genesis_block` builds, at a given formatted time. */
  function Genesis(h: Crypto, timestamp: string): (g: Block)
    ensures g.index == 0 && g.timestamp == timestamp && g.data == Marker(GenesisText)
    ensures g.previousHash == GenesisPreviousHash && g.proof == GenesisProof
    ensures Sealed(h, g)
  {
    Seal(h, Block(0, timestamp, Marker(GenesisText), GenesisPreviousHash, GenesisProof, ""))
  }

  /** The previous hash `create_block` uses: the given one unless it is absent or empty. */
  function PreviousHashFor(h: Crypto, chain: seq<Block>, given: Option<string>): (r: string)
    ensures given.Some? && given.value != "" ==> r == given.value
    ensures (given.None? || given.value == "") && chain == [] ==> r == "0"
    ensures (given.None? || given.value == "") && chain != [] ==> r == Hash(h, chain[|chain| - 1])
  {
    if given.Some? && given.value != "" then given.value
    else if chain == [] then "0"
    else Hash(h, chain[|chain| - 1])
  }

  /** The block `create_block` appends to `chain` when the pool is `pool`. */
  function NewBlock(h: Crypto, chain: seq<Block>, pool: seq<Tx>, proof: int, given: Option<string>, timestamp: string): (b: Block)
    ensures b.index == |chain| && b.timestamp == timestamp && b.data == Txs(pool)
    ensures b.proof == proof && b.previousHash == PreviousHashFor(h, chain, given)
    ensures Sealed(h, b)
  {
    Seal(h, Block(|chain|, timestamp, Txs(pool), PreviousHashFor(h, chain, given), proof, ""))
  }

  // ---------------------------------------------------------------------------
  // Chain validity: the stored `hash` of the previous block is the link target

  /**
   * The data of a block at position 1 or later passes `is_valid_chain`. Iterating a
   * string yields its characters and none of them is a valid transaction, so a
   * marker string passes only when it is empty.
   */
  predicate DataValid(d: BlockData) {
    match d
    case Marker(text) => text == ""
    case Txs(txs) => AllValid(txs)
  }

  /** `is_valid_chain`: every block after the first links to the stored hash before it and holds valid data. */
  predicate ValidChain(c: seq<Block>) {
    forall i :: 1 <= i < |c| ==> c[i].previousHash == c[i - 1].hash && DataValid(c[i].data)
  }

  /** Appending one block keeps a chain valid exactly when the block links to the stored hash and holds valid data. */
  lemma ValidChainAppend(c: seq<Block>, b: Block)
    requires c != []
    ensures ValidChain(c + [b]) <==> ValidChain(c) && b.previousHash == c[|c| - 1].hash && DataValid(b.data)
  {
    var d := c + [b];
    if ValidChain(d) {
      forall i | 1 <= i < |c| ensures c[i].previousHash == c[i - 1].hash && DataValid(c[i].data) {
        assert d[i] == c[i] && d[i - 1] == c[i - 1];
      }
      assert d[|c|] == b && d[|c| - 1] == c[|c| - 1];
    }
  }

  /**
   * The block the ledger appends after an accepted transaction (previous hash given
   * as the recomputed hash of the last block) keeps a valid chain valid whenever the
   * last block's stored hash is its digest and every pooled transaction is valid.
   */
  lemma AcceptedBlockKeepsChainValid(h: Crypto, c: seq<Block>, pool: seq<Tx>, proof: int, timestamp: string)
    requires c != [] && ValidChain(c) && AllSealed(h, c) && AllValid(pool)
    ensures ValidChain(c + [NewBlock(h, c, pool, proof, Some(Hash(h, c[|c| - 1])), timestamp)])
    ensures AllSealed(h, c + [NewBlock(h, c, pool, proof, Some(Hash(h, c[|c| - 1])), timestamp)])
  {
    var b := NewBlock(h, c, pool, proof, Some(Hash(h, c[|c| - 1])), timestamp);
    assert Sealed(h, c[|c| - 1]);
    ValidChainAppend(c, b);
    var d := c + [b];
    forall i | 0 <= i < |d| ensures Sealed(h, d[i]) {
      if i < |c| { assert d[i] == c[i]; }
    }
  }

  // ---------------------------------------------------------------------------
  // Integrity repair: the recomputed hash of the previous block is the link target

  /** Every block after the first links to the recomputed digest of the block before it. */
  predicate Linked(h: Crypto, c: seq<Block>) {
    forall i :: 1 <= i < |c| ==> c[i].previousHash == Hash(h, c[i - 1])
  }

  /** One step of `verify_integrity`: relink `b` to its predecessor and reseal it, if the link is broken. */
  function Relink(h: Crypto, prev: Block, b: Block): (r: Block)
    ensures r.previousHash == Hash(h, prev)
    ensures r.index == b.index && r.timestamp == b.timestamp && r.data == b.data && r.proof == b.proof
    ensures b.previousHash == Hash(h, prev) ==> r == b
    ensures b.previousHash != Hash(h, prev) ==> Sealed(h, r)
  {
    var expected := Hash(h, prev);
    if b.previousHash != expected then Seal(h, b.(previousHash := expected)) else b
  }

  /**
   * The chain `verify_integrity` leaves behind. Each block is compared with the
   * already repaired block before it, so one repair cascades down the chain.
   */
  function Repaired(h: Crypto, c: seq<Block>): (r: seq<Block>)
    ensures |r| == |c|
    ensures |c| > 0 ==> r[0] == c[0]
    decreases |c|
  {
    if |c| <= 1 then c
    else
      var p := Repaired(h, c[..|c| - 1]);
      p + [Relink(h, p[|p| - 1], c[|c| - 1])]
  }

  /** Repairing a chain and taking a prefix is repairing the prefix. */
  lemma {:induction false} RepairedPrefix(h: Crypto, c: seq<Block>, n: nat)
    requires 1 <= n <= |c|
    ensures Repaired(h, c)[..n] == Repaired(h, c[..n])
    decreases |c|
  {
    if n < |c| {
      var m := |c| - 1;
      RepairedPrefix(h, c[..m], n);
      assert c[..m][..n] == c[..n];
      assert Repaired(h, c)[..m] == Repaired(h, c[..m]);
      assert Repaired(h, c)[..n] == Repaired(h, c)[..m][..n];
    } else {
      assert c[..n] == c;
    }
  }

  /** Repair keeps the length and each block's index, timestamp, data and proof. */
  lemma {:induction false} RepairedKeepsFields(h: Crypto, c: seq<Block>)
    ensures |Repaired(h, c)| == |c|
    ensures forall k :: 0 <= k < |c| ==>
      var b := Repaired(h, c)[k];
      b.index == c[k].index && b.timestamp == c[k].timestamp && b.data == c[k].data && b.proof == c[k].proof
    decreases |c|
  {
    if |c| > 1 {
      var m := |c| - 1;
      RepairedKeepsFields(h, c[..m]);
      var r := Repaired(h, c);
      assert r[..m] == Repaired(h, c[..m]);
      forall k | 0 <= k < |c|
        ensures r[k].index == c[k].index && r[k].timestamp == c[k].timestamp
        ensures r[k].data == c[k].data && r[k].proof == c[k].proof
      {
        if k < m {
          assert r[k] == Repaired(h, c[..m])[k] && c[k] == c[..m][k];
        }
      }
    }
  }

  /**
   * After repair every block after the first links to the digest of the (repaired)
   * block before it; a block repair touched is sealed, and one it did not touch is
   * exactly the block it was.
   */
  lemma {:induction false} RepairedIsLinked(h: Crypto, c: seq<Block>)
    ensures Linked(h, Repaired(h, c))
    ensures forall k :: 0 <= k < |c| ==>
      var b := Repaired(h, c)[k];
      (b.previousHash == c[k].previousHash ==> b == c[k]) && (b.previousHash != c[k].previousHash ==> Sealed(h, b))
    decreases |c|
  {
    if |c| > 1 {
      var m := |c| - 1;
      RepairedIsLinked(h, c[..m]);
      var p := Repaired(h, c[..m]);
      var r := Repaired(h, c);
      assert r[..m] == p && r[m] == Relink(h, p[m - 1], c[m]);
      forall i | 1 <= i < |r| ensures r[i].previousHash == Hash(h, r[i - 1]) {
        if i < m {
          assert r[i] == p[i] && r[i - 1] == p[i - 1];
        }
      }
      forall k | 0 <= k < m
        ensures r[k].previousHash == c[k].previousHash ==> r[k] == c[k]
        ensures r[k].previousHash != c[k].previousHash ==> Sealed(h, r[k])
      {
        assert r[k] == p[k] && c[k] == c[..m][k];
      }
    }
  }

  /** Repair changes nothing exactly when the chain is already linked to recomputed digests. */
  lemma {:induction false} RepairedIdentityIffLinked(h: Crypto, c: seq<Block>)
    ensures Repaired(h, c) == c <==> Linked(h, c)
    decreases |c|
  {
    RepairedIsLinked(h, c);
    if |c| > 1 && Linked(h, c) {
      var m := |c| - 1;
      assert Linked(h, c[..m]) by {
        forall i | 1 <= i < m ensures c[..m][i].previousHash == Hash(h, c[..m][i - 1]) {
          assert c[..m][i] == c[i] && c[..m][i - 1] == c[i - 1];
        }
      }
      RepairedIdentityIffLinked(h, c[..m]);
      assert c[..m] + [c[m]] == c;
    }
  }

  /** A second repair pass changes no block and saves no file. */
  lemma RepairIdempotent(h: Crypto, c: seq<Block>, files: map<int, Block>)
    ensures Repaired(h, Repaired(h, c)) == Repaired(h, c)
    ensures RepairWrites(files, Repaired(h, c), Repaired(h, Repaired(h, c))) == files
  {
    RepairedIsLinked(h, c);
    RepairedIdentityIffLinked(h, Repaired(h, c));
    RepairWritesUnchanged(files, Repaired(h, c));
  }

  /**
   * When every block's stored hash is its digest and all blocks after the first hold
   * valid data, the repaired chain passes `is_valid_chain`.
   */
  lemma RepairedSealedChainIsValid(h: Crypto, c: seq<Block>)
    requires AllSealed(h, c)
    requires forall i :: 1 <= i < |c| ==> DataValid(c[i].data)
    ensures ValidChain(Repaired(h, c)) && AllSealed(h, Repaired(h, c))
  {
    var r := Repaired(h, c);
    RepairedIsLinked(h, c);
    RepairedKeepsFields(h, c);
    forall i | 0 <= i < |r| ensures Sealed(h, r[i]) {
      assert Sealed(h, c[i]);
    }
    forall i | 1 <= i < |r| ensures r[i].previousHash == r[i - 1].hash && DataValid(r[i].data) {
      assert Sealed(h, r[i - 1]);
    }
  }

  /** Repairing one more block appends that block relinked to the last repaired one. */
  lemma RepairedSnoc(h: Crypto, d: seq<Block>, n: nat)
    requires 1 <= n < |d|
    ensures var p := Repaired(h, d[..n]);
      Repaired(h, d[..n + 1]) == p + [Relink(h, p[n - 1], d[n])]
  {
    assert d[..n + 1][..n] == d[..n];
  }

  /** A sealed, valid chain is linked to recomputed digests, and so is each of its prefixes. */
  lemma SealedValidIsLinked(h: Crypto, c: seq<Block>, n: nat)
    requires ValidChain(c) && AllSealed(h, c) && n <= |c|
    ensures Linked(h, c[..n])
  {
    forall i | 1 <= i < n ensures c[..n][i].previousHash == Hash(h, c[..n][i - 1]) {
      assert c[..n][i] == c[i] && c[..n][i - 1] == c[i - 1];
      assert Sealed(h, c[i - 1]);
    }
  }

  /** Relinking a sealed, correctly linked block whose previous hash was overwritten restores it. */
  lemma RelinkRestores(h: Crypto, prev: Block, b: Block, bad: string)
    requires Sealed(h, b) && b.previousHash == Hash(h, prev)
    ensures Relink(h, prev, b.(previousHash := bad)) == b
  {
    if bad != Hash(h, prev) {
      assert b.(previousHash := bad).(previousHash := Hash(h, prev)) == b;
    }
  }

  /** Blocks from position `n` on equal those of a linked chain `c`, and so does the repaired prefix: then repair yields `c`. */
  lemma {:induction false} RepairedAgrees(h: Crypto, c: seq<Block>, d: seq<Block>, n: nat)
    requires 1 <= n <= |d| == |c| && Linked(h, c)
    requires Repaired(h, d[..n]) == c[..n]
    requires forall j :: n <= j < |d| ==> d[j] == c[j]
    ensures Repaired(h, d) == c
    decreases |d| - n
  {
    if n == |d| {
      assert d[..n] == d && c[..n] == c;
    } else {
      RepairedSnoc(h, d, n);
      assert c[..n][n - 1] == c[n - 1];
      assert c[..n + 1] == c[..n] + [c[n]];
      RepairedAgrees(h, c, d, n + 1);
    }
  }

  /** The core of the corruption round trip, with the repaired prefix and the link of block `k` given. */
  lemma RestoreCorrupted(h: Crypto, c: seq<Block>, k: nat, bad: string)
    requires 1 <= k < |c| && Linked(h, c)
    requires Repaired(h, c[..k]) == c[..k]
    requires Sealed(h, c[k]) && c[k].previousHash == Hash(h, c[k - 1])
    ensures Repaired(h, c[k := c[k].(previousHash := bad)]) == c
  {
    var d := c[k := c[k].(previousHash := bad)];
    assert d[..k] == c[..k];
    RepairedSnoc(h, d, k);
    RelinkRestores(h, c[k - 1], c[k], bad);
    assert c[..k + 1] == c[..k] + [c[k]];
    RepairedAgrees(h, c, d, k + 1);
  }

  /**
   * Corrupting the previous hash of one block of a valid, sealed chain and then
   * repairing gives the original chain back, which is therefore valid again.
   */
  lemma RepairUndoesPreviousHashCorruption(h: Crypto, c: seq<Block>, k: nat, bad: string)
    requires ValidChain(c) && AllSealed(h, c) && 1 <= k < |c|
    ensures Repaired(h, c[k := c[k].(previousHash := bad)]) == c
    ensures ValidChain(Repaired(h, c[k := c[k].(previousHash := bad)]))
  {
    SealedValidIsLinked(h, c, |c|);
    assert c[..|c|] == c;
    SealedValidIsLinked(h, c, k);
    RepairedIdentityIffLinked(h, c[..k]);
    assert Sealed(h, c[k]) && Sealed(h, c[k - 1]);
    RestoreCorrupted(h, c, k, bad);
  }

  /**
   * The two checks use different link targets, so for every hash function repair can
   * break a chain that `is_valid_chain` accepts: when a block's stored hash is stale,
   * the next block is relinked to the recomputed digest and no longer matches the
   * stored one.
   */
  lemma RepairCanInvalidateValidChain(h: Crypto)
    ensures exists c :: ValidChain(c) && !ValidChain(Repaired(h, c))
  {
    var g := Block(0, "t0", Marker(GenesisText), GenesisPreviousHash, GenesisProof, "");
    var stale := Hash(h, g) + "x";
    var b0 := g.(hash := stale);
    HashIgnoresHashField(h, g, stale);
    var b1 := Block(1, "t1", Txs([]), stale, 7, "");
    var c := [b0, b1];
    assert ValidChain(c);
    var r := Repaired(h, c);
    assert c[..1] == [b0];
    assert r[1].previousHash == Hash(h, b0);
    assert r[0].hash == stale != Hash(h, b0);
    assert !ValidChain(r);
  }

  /** Overwriting the block just after a prefix `p` splices the new block in. */
  lemma SpliceAfter(p: seq<Block>, x: Block, t: seq<Block>, b: Block)
    ensures (p + [x] + t)[|p| := b] == p + [b] + t
  {
  }

  /**
   * One iteration of the repair loop on the chain: with the first `i` blocks repaired
   * and the rest untouched, writing the relinked block `i` in place extends the
   * repaired prefix by one block.
   */
  lemma RepairChainStep(h: Crypto, before: seq<Block>, chain: seq<Block>, i: nat)
    requires 1 <= i < |before|
    requires chain == Repaired(h, before[..i]) + before[i..]
    ensures chain[i] == before[i]
    ensures Repaired(h, before[..i + 1]) == Repaired(h, before[..i]) + [Relink(h, chain[i - 1], before[i])]
    ensures chain[i := Relink(h, chain[i - 1], before[i])] == Repaired(h, before[..i + 1]) + before[i + 1..]
  {
    var p := Repaired(h, before[..i]);
    var x, t := before[i], before[i + 1..];
    assert before[i..] == [x] + t;
    assert chain == p + [x] + t;
    assert chain[i - 1] == p[i - 1] && chain[i] == x;
    RepairedSnoc(h, before, i);
    SpliceAfter(p, x, t, Relink(h, p[i - 1], x));
  }

  /** One iteration of the repair loop on the files: the relinked block is saved exactly when it changed. */
  lemma RepairFilesStep(before: seq<Block>, files0: map<int, Block>, files: map<int, Block>, i: nat, p: seq<Block>, b: Block)
    requires 1 <= i < |before| && |p| == i
    requires files == RepairWrites(files0, before[..i], p)
    ensures RepairWrites(files0, before[..i + 1], p + [b])
      == if b.previousHash != before[i].previousHash then files[b.index := b] else files
  {
    assert before[..i + 1] == before[..i] + [before[i]];
    RepairWritesSnoc(files0, before[..i], p, before[i], b);
  }

  /** What `verify_integrity` writes to the block files: each relinked block, under its own `index`. */
  function RepairWrites(files: map<int, Block>, before: seq<Block>, after: seq<Block>): map<int, Block>
    requires |before| == |after|
    decreases |before|
  {
    if |before| == 0 then files
    else
      var m := |before| - 1;
      var earlier := RepairWrites(files, before[..m], after[..m]);
      if after[m].previousHash != before[m].previousHash then earlier[after[m].index := after[m]] else earlier
  }

  /** A pass that changes no block saves no file. */
  lemma {:induction false} RepairWritesUnchanged(files: map<int, Block>, c: seq<Block>)
    ensures RepairWrites(files, c, c) == files
    decreases |c|
  {
    if |c| > 0 {
      RepairWritesUnchanged(files, c[..|c| - 1]);
    }
  }

  /** One more block: it is saved exactly when repair changed its previous hash. */
  lemma RepairWritesSnoc(files: map<int, Block>, before: seq<Block>, after: seq<Block>, x: Block, y: Block)
    requires |before| == |after|
    ensures var e := RepairWrites(files, before, after);
      RepairWrites(files, before + [x], after + [y]) == if y.previousHash != x.previousHash then e[y.index := y] else e
  {
    assert (before + [x])[..|before|] == before;
    assert (after + [y])[..|after|] == after;
  }

  /** The ledger's state: the committed chain, the pending pool and the block files (`block_<index>.json`). */
  class Blockchain {
    const crypto: Crypto
    var chain: seq<Block>
    var currentTransactions: seq<Tx>
    var files: map<int, Block>

    /**
     * `__init__`: `loaded` is what the block files yielded (their loading order is not
     * modelled); an empty load makes and saves the genesis block.
     */
    constructor (crypto: Crypto, loaded: seq<Block>, storedFiles: map<int, Block>, timestamp: string)
      ensures this.crypto == crypto && currentTransactions == []
      ensures loaded == [] ==> chain == [Genesis(crypto, timestamp)] && files == storedFiles[0 := Genesis(crypto, timestamp)]
      ensures loaded != [] ==> chain == loaded && files == storedFiles
    {
      this.crypto := crypto;
      currentTransactions := [];
      if loaded == [] {
        var genesis := Genesis(crypto, timestamp);
        chain := [genesis];
        files := storedFiles[genesis.index := genesis];
      } else {
        chain := loaded;
        files := storedFiles;
      }
    }

    /** `last_block`. */
    function LastBlock(): (r: Option<Block>)
      reads this
      ensures r.None? <==> chain == []
      ensures r.Some? ==> r.value == chain[|chain| - 1]
    {
      if chain == [] then None else Some(chain[|chain| - 1])
    }

    /** `save_block_to_json`: the file of the block's index now holds the block. */
    method SaveBlock(b: Block)
      modifies this
      ensures files == old(files)[b.index := b]
      ensures chain == old(chain) && currentTransactions == old(currentTransactions)
    {
      files := files[b.index := b];
    }

    /** `create_genesis_block`: appends a genesis block, whatever the chain holds already. */
    method CreateGenesisBlock(timestamp: string)
      modifies this
      ensures chain == old(chain) + [Genesis(crypto, timestamp)]
      ensures files == old(files)[0 := Genesis(crypto, timestamp)]
      ensures currentTransactions == old(currentTransactions)
    {
      var genesis := Genesis(crypto, timestamp);
      chain := chain + [genesis];
      SaveBlock(genesis);
    }

    /** `add_transaction`: appends without validating and returns the prospective block index. */
    method AddTransaction(tx: Tx) returns (next: int)
      requires chain != []
      modifies this
      ensures currentTransactions == old(currentTransactions) + [tx]
      ensures chain == old(chain) && files == old(files)
      ensures next == chain[|chain| - 1].index + 1
    {
      currentTransactions := currentTransactions + [tx];
      next := chain[|chain| - 1].index + 1;
    }

    /** `proof_of_work`: the least non-negative proof that passes `valid_proof`. */
    method ProofOfWork(lastProof: int) returns (proof: int)
      requires Solvable(crypto, lastProof)
      ensures proof >= 0 && ValidProof(crypto, lastProof, proof)
      ensures forall q :: 0 <= q < proof ==> !ValidProof(crypto, lastProof, q)
    {
      ghost var bound: nat :| ValidProof(crypto, lastProof, bound);
      proof := 0;
      while !ValidProof(crypto, lastProof, proof)
        invariant 0 <= proof <= bound
        invariant forall q :: 0 <= q < proof ==> !ValidProof(crypto, lastProof, q)
        decreases bound - proof
      {
        proof := proof + 1;
      }
    }

    /** `is_valid_chain`: the read-only scan with its early returns. */
    method IsValidChain() returns (valid: bool)
      ensures valid == ValidChain(chain)
    {
      var i := 1;
      while i < |chain|
        invariant 1 <= i <= |chain| || (chain == [] && i == 1)
        invariant forall j :: 1 <= j < i && j < |chain| ==> chain[j].previousHash == chain[j - 1].hash && DataValid(chain[j].data)
        decreases |chain| - i
      {
        var current, previous := chain[i], chain[i - 1];
        if current.previousHash != previous.hash {
          return false;
        }
        match current.data {
        case Marker(text) =>
          if text != "" {
            return false;
          }
        case Txs(txs) =>
          for k := 0 to |txs|
            invariant forall m :: 0 <= m < k ==> IsValidTransaction(txs[m])
          {
            if !IsValidTransaction(txs[k]) {
              return false;
            }
          }
        }
        i := i + 1;
      }
      return true;
    }

    /**
     * `create_block`: on a chain `is_valid_chain` rejects it raises and changes
     * nothing; otherwise it saves and appends the new block and empties the pool.
     */
    method CreateBlock(proof: int, previousHash: Option<string>, timestamp: string) returns (r: Result<Block>)
      modifies this
      ensures !ValidChain(old(chain)) ==>
        && r == Err(InvalidChainError)
        && chain == old(chain) && currentTransactions == old(currentTransactions) && files == old(files)
      ensures ValidChain(old(chain)) ==>
        && r == Ok(NewBlock(crypto, old(chain), old(currentTransactions), proof, previousHash, timestamp))
        && chain == old(chain) + [r.value]
        && currentTransactions == []
        && files == old(files)[r.value.index := r.value]
    {
      var valid := IsValidChain();
      if !valid {
        return Err(InvalidChainError);
      }
      var last := LastBlock();
      var calculated := if last.Some? then Hash(crypto, last.value) else "0";
      var link := if previousHash.Some? && previousHash.value != "" then previousHash.value else calculated;
      var block := Block(|chain|, timestamp, Txs(currentTransactions), link, proof, "");
      block := block.(hash := Hash(crypto, block));
      SaveBlock(block);
      currentTransactions := [];
      chain := chain + [block];
      return Ok(block);
    }

    /**
     * `verify_integrity`: walks the chain from index 1, relinking and resealing each
     * block whose previous hash is not the digest of the block before it, and saving
     * it. Always reports success.
     */
    method VerifyIntegrity() returns (ok: bool)
      requires chain != []
      modifies this
      ensures ok
      ensures chain == Repaired(crypto, old(chain))
      ensures files == RepairWrites(old(files), old(chain), chain)
      ensures currentTransactions == old(currentTransactions)
    {
      var current := chain[0];
      var i := 1;
      assert old(chain)[..1] == [current] && old(chain) == [current] + old(chain)[1..];
      while i < |chain|
        invariant 1 <= i <= |chain| == |old(chain)|
        invariant chain == Repaired(crypto, old(chain)[..i]) + old(chain)[i..]
        invariant current == chain[i - 1]
        invariant files == RepairWrites(old(files), old(chain)[..i], Repaired(crypto, old(chain)[..i]))
        invariant currentTransactions == old(currentTransactions)
      {
        RepairChainStep(crypto, old(chain), chain, i);
        ghost var relinked := Relink(crypto, current, old(chain)[i]);
        RepairFilesStep(old(chain), old(files), files, i, Repaired(crypto, old(chain)[..i]), relinked);
        var block := chain[i];
        var recalculated := Hash(crypto, current);
        if block.previousHash != recalculated {
          block := block.(previousHash := recalculated);
          block := block.(hash := Hash(crypto, block));
          assert block == relinked;
          chain := chain[i := block];
          SaveBlock(block);
        } else {
          assert block == relinked;
        }
        current := block;
        i := i + 1;
      }
      assert old(chain)[..i] == old(chain);
      return true;
    }
  }
}
