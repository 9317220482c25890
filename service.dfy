/**
 * The request handling of the StockChain server (src/server/server.py) without its
 * socket, threads and encryption: one decrypted command string in, one response out.
 * The `Server` holds the username -> id registry and the ledger; the copy commands
 * also return the records they would write to their JSON export file.
 */
module Service {
  import opened Wrappers
  import opened Ledger
  import Decimal
  import Words

  const UnknownCommand := "Unknown command"
  const UsernameTaken := "Username already taken"
  const NotRegistered := "Username not registered"
  const InvalidTransaction := "Invalid transaction. Ensure operation type is \"buy\" or \"sell\"."
  const TransactionAdded := "Transaction added"
  const CopyUsage := "Invalid copy command. Usage: copy [<username>]"
  const NoUserTransactions := "No transactions found for this user."
  const NoTransactions := "No transactions found."
  const AllExportPath := "transactions_all_users.json"
  const AllCopied := "All transactions copied and saved to " + AllExportPath
  const ChainIntact := "The blockchain is valid and has not been altered."

  function RegisteredReply(id: string): string {
    "Registered with ID: " + id
  }

  function UserExportPath(username: string): string {
    "transactions_" + username + ".json"
  }

  function UserCopied(username: string): string {
    "Transactions copied for user " + username + " and saved to " + UserExportPath(username)
  }

  /** What one request produces: a response sent back, or an exception that ends the session unanswered. */
  datatype Outcome = Reply(text: string) | Raised(error: string)

  // ---------------------------------------------------------------------------
  // The registry

  /** The id `handle_register` gives the next user: one more than the number registered. */
  function NextId(users: map<string, string>): string {
    Decimal.IntToString(|users| + 1)
  }

  /** The ids "1" to "n". */
  function IdRange(n: nat): set<string> {
    set k | 1 <= k <= n :: Decimal.IntToString(k)
  }

  /** No two usernames share an id. */
  predicate IdsDistinct(users: map<string, string>) {
    forall a, b :: a in users && b in users && a != b ==> users[a] != users[b]
  }

  /**
   * A registry built by registrations alone holds the ids "1" to "n", all distinct;
   * registering a new name issues an id no one holds and keeps it so.
   */
  lemma RegisterIssuesFreshId(users: map<string, string>, name: string)
    requires name !in users
    requires users.Values <= IdRange(|users|) && IdsDistinct(users)
    ensures NextId(users) !in users.Values
    ensures var after := users[name := NextId(users)];
      after.Values <= IdRange(|after|) && IdsDistinct(after)
  {
    var issued := NextId(users);
    var after := users[name := issued];
    if issued in users.Values {
      var k :| 1 <= k <= |users| && Decimal.IntToString(k) == issued;
      Decimal.IntToStringInjective(k, |users| + 1);
    }
    assert |after| == |users| + 1;
    forall v | v in after.Values ensures v in IdRange(|after|) {
      var u :| u in after && after[u] == v;
      if u != name {
        assert users[u] in users.Values;
        var k :| 1 <= k <= |users| && Decimal.IntToString(k) == v;
      }
    }
  }

  // ---------------------------------------------------------------------------
  // Export records of the copy commands

  /** An entry of a `transactions_*.json` export: the transaction and its block's `block_info`. */
  datatype Export = Export(transaction: Tx, timestamp: string, previousHash: string, proof: int, hash: string)

  function ExportOf(b: Block, tx: Tx): Export {
    Export(tx, b.timestamp, b.previousHash, b.proof, b.hash)
  }

  /** The records for the transactions `txs` of block `b`, in order. */
  function TxExports(b: Block, txs: seq<Tx>): (r: seq<Export>)
    decreases |txs|
  {
    if txs == [] then [] else TxExports(b, txs[..|txs| - 1]) + [ExportOf(b, txs[|txs| - 1])]
  }

  /** The records of one block: none when its data is not a list (the genesis marker). */
  function BlockExports(b: Block): seq<Export> {
    match b.data
    case Marker(_) => []
    case Txs(txs) => TxExports(b, txs)
  }

  /** The records of every transaction of every list-data block, in chain order then in-block order. */
  function Exports(c: seq<Block>): seq<Export>
    decreases |c|
  {
    if c == [] then [] else Exports(c[..|c| - 1]) + BlockExports(c[|c| - 1])
  }

  /** The records whose transaction carries `user_id == id`, in their order. */
  function OwnedBy(xs: seq<Export>, id: string): seq<Export>
    decreases |xs|
  {
    if xs == [] then []
    else
      var last := xs[|xs| - 1];
      OwnedBy(xs[..|xs| - 1], id) + (if last.transaction.userId == Some(id) then [last] else [])
  }

  lemma {:induction false} TxExportsShape(b: Block, txs: seq<Tx>)
    ensures |TxExports(b, txs)| == |txs|
    ensures forall k :: 0 <= k < |txs| ==> TxExports(b, txs)[k] == ExportOf(b, txs[k])
    decreases |txs|
  {
    if txs != [] {
      var m := |txs| - 1;
      TxExportsShape(b, txs[..m]);
      forall k | 0 <= k < |txs| ensures TxExports(b, txs)[k] == ExportOf(b, txs[k]) {
        if k < m {
          assert txs[..m][k] == txs[k];
        }
      }
    }
  }

  /** Filtering by owner distributes over concatenation. */
  lemma {:induction false} OwnedByAppend(xs: seq<Export>, ys: seq<Export>, id: string)
    ensures OwnedBy(xs + ys, id) == OwnedBy(xs, id) + OwnedBy(ys, id)
    decreases |ys|
  {
    if ys == [] {
      assert xs + ys == xs;
    } else {
      var m := |ys| - 1;
      var zs := xs + ys;
      var tail := if ys[m].transaction.userId == Some(id) then [ys[m]] else [];
      OwnedByAppend(xs, ys[..m], id);
      assert zs[..|zs| - 1] == xs + ys[..m];
      assert zs[|zs| - 1] == ys[m];
      assert OwnedBy(zs, id) == OwnedBy(xs + ys[..m], id) + tail;
      assert OwnedBy(ys, id) == OwnedBy(ys[..m], id) + tail;
    }
  }

  /** A record is in the per-user export exactly when it is in the full export and belongs to the user. */
  lemma {:induction false} OwnedByMembers(xs: seq<Export>, id: string)
    ensures forall x :: x in OwnedBy(xs, id) <==> x in xs && x.transaction.userId == Some(id)
    decreases |xs|
  {
    if xs != [] {
      var m := |xs| - 1;
      OwnedByMembers(xs[..m], id);
      assert xs == xs[..m] + [xs[m]];
    }
  }

  /** One more block adds exactly that block's records at the end of the export. */
  lemma ExportsAppend(c: seq<Block>, b: Block)
    ensures Exports(c + [b]) == Exports(c) + BlockExports(b)
  {
    assert (c + [b])[..|c|] == c;
  }

  /** A block that contributes no records: marker data, or an empty transaction list. */
  predicate Silent(b: Block) {
    b.data.Marker? || b.data.txs == []
  }

  lemma BlockExportsEmptyIff(b: Block)
    ensures BlockExports(b) == [] <==> Silent(b)
  {
    if b.data.Txs? {
      TxExportsShape(b, b.data.txs);
    }
  }

  /**
   * The export is empty exactly when no block holds a non-empty transaction list;
   * marker data such as the genesis string is skipped.
   */
  lemma {:induction false} ExportsEmptyIff(c: seq<Block>)
    ensures Exports(c) == [] <==> forall i :: 0 <= i < |c| ==> Silent(c[i])
    decreases |c|
  {
    if c != [] {
      var m := |c| - 1;
      var p := c[..m];
      ExportsEmptyIff(p);
      BlockExportsEmptyIff(c[m]);
      assert Exports(c) == Exports(p) + BlockExports(c[m]);
      assert (forall i :: 0 <= i < |c| ==> Silent(c[i])) <==> (forall i :: 0 <= i < m ==> Silent(p[i])) && Silent(c[m]) by {
        assert forall i :: 0 <= i < m ==> p[i] == c[i];
      }
    }
  }

  /** `copy_user_transactions` as its loops compute it: the records of transactions owned by `id`. */
  function UserTxExports(b: Block, txs: seq<Tx>, id: string): seq<Export>
    decreases |txs|
  {
    if txs == [] then []
    else
      var tx := txs[|txs| - 1];
      UserTxExports(b, txs[..|txs| - 1], id) + (if tx.userId == Some(id) then [ExportOf(b, tx)] else [])
  }

  function UserBlockExports(b: Block, id: string): seq<Export> {
    match b.data
    case Marker(_) => []
    case Txs(txs) => UserTxExports(b, txs, id)
  }

  function UserExports(c: seq<Block>, id: string): seq<Export>
    decreases |c|
  {
    if c == [] then [] else UserExports(c[..|c| - 1], id) + UserBlockExports(c[|c| - 1], id)
  }

  lemma {:induction false} UserTxExportsIsFilter(b: Block, txs: seq<Tx>, id: string)
    ensures UserTxExports(b, txs, id) == OwnedBy(TxExports(b, txs), id)
    decreases |txs|
  {
    if txs != [] {
      var m := |txs| - 1;
      UserTxExportsIsFilter(b, txs[..m], id);
      var all := TxExports(b, txs);
      assert all[..|all| - 1] == TxExports(b, txs[..m]);
    }
  }

  /** The per-user copy is the full copy filtered by owner: same records, same order. */
  lemma {:induction false} UserExportsIsFilter(c: seq<Block>, id: string)
    ensures UserExports(c, id) == OwnedBy(Exports(c), id)
    decreases |c|
  {
    if c != [] {
      var m := |c| - 1;
      UserExportsIsFilter(c[..m], id);
      OwnedByAppend(Exports(c[..m]), BlockExports(c[m]), id);
      if c[m].data.Txs? {
        UserTxExportsIsFilter(c[m], c[m].data.txs, id);
      }
    }
  }

  /** One more block of the full copy's outer loop. */
  lemma ExportsStep(c: seq<Block>, i: nat)
    requires i < |c|
    ensures Exports(c[..i + 1]) == Exports(c[..i]) + BlockExports(c[i])
  {
    assert c[..i + 1][..i] == c[..i];
  }

  /** One more transaction of the full copy's inner loop. */
  lemma TxExportsStep(b: Block, txs: seq<Tx>, j: nat)
    requires j < |txs|
    ensures TxExports(b, txs[..j + 1]) == TxExports(b, txs[..j]) + [ExportOf(b, txs[j])]
  {
    assert txs[..j + 1][..j] == txs[..j];
  }

  /** One more block of the per-user copy's outer loop. */
  lemma UserExportsStep(c: seq<Block>, i: nat, id: string)
    requires i < |c|
    ensures UserExports(c[..i + 1], id) == UserExports(c[..i], id) + UserBlockExports(c[i], id)
  {
    assert c[..i + 1][..i] == c[..i];
  }

  /** One more transaction of the per-user copy's inner loop. */
  lemma UserTxExportsStep(b: Block, txs: seq<Tx>, j: nat, id: string)
    requires j < |txs|
    ensures UserTxExports(b, txs[..j + 1], id)
      == UserTxExports(b, txs[..j], id) + (if txs[j].userId == Some(id) then [ExportOf(b, txs[j])] else [])
  {
    assert txs[..j + 1][..j] == txs[..j];
  }

  /**
   * After an accepted transaction the user's export ends with that transaction,
   * carrying the new block's info; nothing before it changes.
   */
  lemma AddedTransactionIsExported(c: seq<Block>, b: Block, pool: seq<Tx>, tx: Tx, id: string)
    requires b.data == Txs(pool + [tx]) && tx.userId == Some(id)
    ensures OwnedBy(Exports(c + [b]), id)
      == OwnedBy(Exports(c), id) + OwnedBy(TxExports(b, pool), id) + [ExportOf(b, tx)]
  {
    ExportsAppend(c, b);
    var txs := pool + [tx];
    assert BlockExports(b) == TxExports(b, txs);
    assert txs[..|txs| - 1] == pool;
    assert TxExports(b, txs) == TxExports(b, pool) + [ExportOf(b, tx)];
    OwnedByAppend(Exports(c), TxExports(b, txs), id);
    OwnedByAppend(TxExports(b, pool), [ExportOf(b, tx)], id);
    assert OwnedBy([ExportOf(b, tx)], id) == [ExportOf(b, tx)] by {
      assert [ExportOf(b, tx)][..0] == [];
    }
  }

  // ---------------------------------------------------------------------------
  // The add command

  /** The transaction `handle_add_transaction` builds from `username operation stock`. */
  function TxFor(id: string, args: seq<string>): Tx
    requires |args| >= 3
  {
    Tx(Some(id), Some(args[1]), Some(args[2]))
  }

  /** The arguments this model accepts; with fewer the source raises `IndexError`. */
  predicate AddArity(users: map<string, string>, args: seq<string>) {
    |args| >= 1 && (args[0] in users ==> |args| >= 3)
  }

  /** The add command will reach the proof-of-work search. */
  predicate AddMines(users: map<string, string>, args: seq<string>)
    requires AddArity(users, args)
  {
    args[0] in users && IsValidTransaction(TxFor(users[args[0]], args))
  }

  const Commands := {"register", "add", "copy", "verify"}

  /** The words each command reads are present; with fewer the source raises `IndexError`. */
  predicate CommandArity(users: map<string, string>, parts: seq<string>)
    requires |parts| >= 1
  {
    && (parts[0] == "register" ==> |parts| >= 2)
    && (parts[0] == "add" ==> AddArity(users, parts[1..]))
  }

  /** The message is an `add` that reaches the proof-of-work search. */
  predicate MessageMines(users: map<string, string>, parts: seq<string>)
    requires |parts| >= 1 && CommandArity(users, parts)
  {
    parts[0] == "add" && AddMines(users, parts[1..])
  }

  class Server {
    var users: map<string, string>
    const blockchain: Blockchain

    /** The chain is never empty and the pool holds only transactions that passed validation. */
    ghost predicate Valid()
      reads this, blockchain
    {
      blockchain.chain != [] && AllValid(blockchain.currentTransactions)
    }

    /** `__init__` without the socket and key: `loadedUsers` is what users.json held. */
    constructor (crypto: Crypto, loadedChain: seq<Block>, storedFiles: map<int, Block>, loadedUsers: map<string, string>, timestamp: string)
      ensures Valid() && fresh(blockchain)
      ensures users == loadedUsers && blockchain.crypto == crypto && blockchain.currentTransactions == []
      ensures loadedChain == [] ==>
        blockchain.chain == [Genesis(crypto, timestamp)] && blockchain.files == storedFiles[0 := Genesis(crypto, timestamp)]
      ensures loadedChain != [] ==> blockchain.chain == loadedChain && blockchain.files == storedFiles
    {
      users := loadedUsers;
      blockchain := new Blockchain(crypto, loadedChain, storedFiles, timestamp);
    }

    /** The effect of `handle_register`: a taken name changes nothing; a new name gets the next id. */
    twostate predicate RegisterDone(username: string, response: string)
      reads this
    {
      if username in old(users) then
        response == UsernameTaken && users == old(users)
      else
        users == old(users)[username := NextId(old(users))] && response == RegisteredReply(NextId(old(users)))
    }

    /** `handle_register`. */
    method HandleRegister(username: string) returns (response: string)
      requires Valid()
      modifies this
      ensures Valid()
      ensures RegisterDone(username, response)
    {
      if username in users {
        response := UsernameTaken;
      } else {
        var clientId := Decimal.IntToString(|users| + 1);
        users := users[username := clientId];
        response := RegisteredReply(clientId);
      }
    }

    /**
     * The effect of `handle_add_transaction` on the ledger: rejections change
     * nothing; on a chain `is_valid_chain` rejects, the transaction stays pooled and
     * `create_block` raises; otherwise one block holding the pool is appended.
     */
    twostate predicate AddDone(args: seq<string>, timestamp: string, out: Outcome)
      reads this, blockchain
    {
      var c, pool, files := old(blockchain.chain), old(blockchain.currentTransactions), old(blockchain.files);
      && users == old(users)
      && if |args| == 0 then false
         else if args[0] !in old(users) then
           out == Reply(NotRegistered)
           && blockchain.chain == c && blockchain.currentTransactions == pool && blockchain.files == files
         else if |args| < 3 || c == [] then false
         else
           var tx := TxFor(old(users)[args[0]], args);
           if !IsValidTransaction(tx) then
             out == Reply(InvalidTransaction)
             && blockchain.chain == c && blockchain.currentTransactions == pool && blockchain.files == files
           else if !ValidChain(c) then
             out == Raised(InvalidChainError)
             && blockchain.chain == c && blockchain.currentTransactions == pool + [tx] && blockchain.files == files
           else
             var last := c[|c| - 1];
             && out == Reply(TransactionAdded)
             && |blockchain.chain| == |c| + 1 && blockchain.chain[..|c|] == c
             && var b := blockchain.chain[|c|];
                && IsLeastProof(blockchain.crypto, last.proof, b.proof)
                && b == NewBlock(blockchain.crypto, c, pool + [tx], b.proof, Some(Hash(blockchain.crypto, last)), timestamp)
                && blockchain.currentTransactions == []
                && blockchain.files == files[b.index := b]
    }

    /** `handle_add_transaction`, given the words after `add`. */
    method HandleAddTransaction(args: seq<string>, timestamp: string) returns (out: Outcome)
      requires Valid() && AddArity(users, args)
      requires AddMines(users, args) ==> Solvable(blockchain.crypto, blockchain.chain[|blockchain.chain| - 1].proof)
      modifies blockchain
      ensures Valid()
      ensures AddDone(args, timestamp, out)
      ensures old(ValidChain(blockchain.chain) && AllSealed(blockchain.crypto, blockchain.chain)) ==>
        ValidChain(blockchain.chain) && AllSealed(blockchain.crypto, blockchain.chain)
    {
      ghost var chain0, pool0 := blockchain.chain, blockchain.currentTransactions;
      var username := args[0];
      if username !in users {
        return Reply(NotRegistered);
      }
      var clientId := users[username];
      var transaction := Tx(Some(clientId), Some(args[1]), Some(args[2]));
      if !IsValidTransaction(transaction) {
        return Reply(InvalidTransaction);
      }
      var _ := blockchain.AddTransaction(transaction);
      var last := blockchain.LastBlock();
      var proof := blockchain.ProofOfWork(last.value.proof);
      var previousHash := Hash(blockchain.crypto, last.value);
      var created := blockchain.CreateBlock(proof, Some(previousHash), timestamp);
      if created.Err? {
        return Raised(created.error);
      }
      assert blockchain.chain == chain0 + [NewBlock(blockchain.crypto, chain0, pool0 + [transaction], proof, Some(previousHash), timestamp)];
      if AllSealed(blockchain.crypto, chain0) {
        AcceptedBlockKeepsChainValid(blockchain.crypto, chain0, pool0 + [transaction], proof, timestamp);
      }
      return Reply(TransactionAdded);
    }

    /** `copy_user_transactions`. */
    method CopyUserTransactions(username: string) returns (response: string, exported: seq<Export>)
      ensures username !in users ==> response == NotRegistered && exported == []
      ensures username in users ==>
        && exported == OwnedBy(Exports(blockchain.chain), users[username])
        && response == (if exported == [] then NoUserTransactions else UserCopied(username))
    {
      if username !in users {
        return NotRegistered, [];
      }
      var clientId := users[username];
      var chain := blockchain.chain;
      exported := [];
      for i := 0 to |chain|
        invariant exported == UserExports(chain[..i], clientId)
      {
        var block := chain[i];
        UserExportsStep(chain, i, clientId);
        if block.data.Txs? {
          var txs := block.data.txs;
          ghost var before := exported;
          for j := 0 to |txs|
            invariant exported == before + UserTxExports(block, txs[..j], clientId)
          {
            var transaction := txs[j];
            UserTxExportsStep(block, txs, j, clientId);
            if transaction.userId == Some(clientId) {
              exported := exported + [ExportOf(block, transaction)];
            }
          }
          assert txs[..|txs|] == txs;
        }
      }
      assert chain[..|chain|] == chain;
      UserExportsIsFilter(chain, clientId);
      response := if exported == [] then NoUserTransactions else UserCopied(username);
    }

    /** `copy_all_transactions`. */
    method CopyAllTransactions() returns (response: string, exported: seq<Export>)
      ensures exported == Exports(blockchain.chain)
      ensures response == if exported == [] then NoTransactions else AllCopied
    {
      var chain := blockchain.chain;
      exported := [];
      for i := 0 to |chain|
        invariant exported == Exports(chain[..i])
      {
        var block := chain[i];
        ExportsStep(chain, i);
        if block.data.Txs? {
          var txs := block.data.txs;
          ghost var before := exported;
          for j := 0 to |txs|
            invariant exported == before + TxExports(block, txs[..j])
          {
            TxExportsStep(block, txs, j);
            exported := exported + [ExportOf(block, txs[j])];
          }
          assert txs[..|txs|] == txs;
          assert BlockExports(block) == TxExports(block, txs);
        } else {
          assert BlockExports(block) == [];
        }
        assert exported == Exports(chain[..i]) + BlockExports(block);
      }
      assert chain[..|chain|] == chain;
      response := if exported == [] then NoTransactions else AllCopied;
    }

    /** The answer of `handle_copy_transactions`: `copy <username>`, `copy`, or the usage message. */
    predicate CopyAnswer(parts: seq<string>, response: string, exported: seq<Export>)
      reads this, blockchain
    {
      if |parts| == 2 then
        if parts[1] !in users then response == NotRegistered && exported == []
        else
          && exported == OwnedBy(Exports(blockchain.chain), users[parts[1]])
          && response == (if exported == [] then NoUserTransactions else UserCopied(parts[1]))
      else if |parts| == 1 then
        exported == Exports(blockchain.chain) && response == (if exported == [] then NoTransactions else AllCopied)
      else
        response == CopyUsage && exported == []
    }

    /** `handle_copy_transactions`, given all words of the command. */
    method HandleCopyTransactions(parts: seq<string>) returns (response: string, exported: seq<Export>)
      ensures CopyAnswer(parts, response, exported)
    {
      if |parts| == 2 {
        response, exported := CopyUserTransactions(parts[1]);
      } else if |parts| == 1 {
        response, exported := CopyAllTransactions();
      } else {
        response, exported := CopyUsage, [];
      }
    }

    /** The effect of `handle_verify_integrity`: the repair pass, and the fixed answer that the chain is intact. */
    twostate predicate VerifyDone(response: string)
      reads this, blockchain
    {
      && response == ChainIntact
      && users == old(users)
      && blockchain.chain == Repaired(blockchain.crypto, old(blockchain.chain))
      && blockchain.files == RepairWrites(old(blockchain.files), old(blockchain.chain), blockchain.chain)
      && blockchain.currentTransactions == old(blockchain.currentTransactions)
    }

    /** `handle_verify_integrity`: runs the repair pass and always answers that the chain is intact. */
    method HandleVerifyIntegrity() returns (response: string)
      requires Valid()
      modifies blockchain
      ensures Valid()
      ensures VerifyDone(response)
    {
      var isValid := blockchain.VerifyIntegrity();
      if isValid {
        response := ChainIntact;
      }
    }

    /**
     * `handle_client`'s handling of one decrypted message: dispatch on the first
     * space-separated word; any other word is answered `Unknown command` and changes nothing.
     */
    method HandleMessage(message: string, timestamp: string) returns (out: Outcome, exported: seq<Export>)
      requires Valid()
      requires CommandArity(users, Words.Split(message))
      requires MessageMines(users, Words.Split(message)) ==> Solvable(blockchain.crypto, blockchain.chain[|blockchain.chain| - 1].proof)
      modifies this, blockchain
      ensures Valid()
      ensures var parts := Words.Split(message);
        && (parts[0] == "register" ==>
             out.Reply? && RegisterDone(parts[1], out.text) && exported == [] && unchanged(blockchain))
        && (parts[0] == "add" ==> AddDone(parts[1..], timestamp, out) && exported == [])
        && (parts[0] == "copy" ==>
             out.Reply? && CopyAnswer(parts, out.text, exported) && users == old(users) && unchanged(blockchain))
        && (parts[0] == "verify" ==> out.Reply? && VerifyDone(out.text) && exported == [])
        && (parts[0] !in Commands ==>
             out == Reply(UnknownCommand) && exported == [] && users == old(users) && unchanged(blockchain))
    {
      var parts := Words.Split(message);
      exported := [];
      if parts[0] == "register" {
        var response := HandleRegister(parts[1]);
        out := Reply(response);
      } else if parts[0] == "add" {
        out := HandleAddTransaction(parts[1..], timestamp);
      } else if parts[0] == "copy" {
        var response;
        response, exported := HandleCopyTransactions(parts);
        out := Reply(response);
      } else if parts[0] == "verify" {
        var response := HandleVerifyIntegrity();
        out := Reply(response);
      } else {
        out := Reply(UnknownCommand);
      }
    }
  }
}
