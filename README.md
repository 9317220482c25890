# StockChain ledger, modelled in Dafny

StockChain is a single-process stock-trading ledger. A server takes commands from
clients and keeps a chain of blocks that only grows. Each block holds the `buy`/`sell`
transactions accepted since the block before it. Blocks are linked by SHA-256
digests and admitted by a small proof-of-work. This project models the two core
classes of the server:

- `Blockchain` (src/server/blockchain.py) becomes the module `Ledger`. It holds the
  data model, the hash, transaction and chain validity, the proof-of-work search,
  block creation and the destructive repair pass `verify_integrity`. The class
  `Ledger.Blockchain` keeps the source's three pieces of state as fields: the
  `chain` list, the `current_transactions` pool, and the block files as a map from
  block index to block.
- `Server` (src/server/server.py) becomes the module `Service`, without sockets
  and encryption. `Service.Server` holds the username-to-id registry and a
  `Blockchain`. It answers one decrypted command string at a time: `register`,
  `add`, `copy`, `verify`, or anything else (`Unknown command`). The copy commands
  also return the records they would write to their export file.

Two small helper modules support these. `Decimal` is Python's `str(int)`, used in
the proof-of-work guess and in the user ids. `Words` is `str.split(' ')`. Each comes
with its inverse and a round-trip proof.

SHA-256 and `json.dumps(..., sort_keys=True)` are library calls. They are the two
function fields of a `Crypto` value, given to the constructor, and nothing is
assumed about them. The block hash is `sha256(sortedJson(content))`, where
`content` is every field of the block except `hash`. So a block's stored `hash`
cannot change its own digest. `valid_proof` is written out exactly: the digest of
`str(last_proof) + str(proof)` must start with `"0000"`.

Two link checks are kept apart, as in the source:

- `is_valid_chain` (`Ledger.ValidChain`, and the method `Ledger.Blockchain.IsValidChain`)
  compares each block's `previous_hash` with the *stored* `hash` of the block before it.
- `verify_integrity` (`Ledger.Repaired`, via the method `Ledger.Blockchain.VerifyIntegrity`)
  compares it with the *recomputed* digest, and rewrites it where they differ.

The lemmas show how the two relate:

- Suppose every stored hash is correct and every block after the genesis block
  holds valid data. Then repair yields a chain that `is_valid_chain` accepts.
- Take a chain that `is_valid_chain` accepts and whose stored hashes are all
  correct. Corrupting the `previous_hash` of one block after the genesis block
  and then repairing gives back the original chain. Repair never touches the
  genesis block itself.
- Repair is idempotent: a second pass changes no block and saves no file.
- For every hash function, some chain that `is_valid_chain` accepts is rejected
  after repair (`RepairCanInvalidateValidChain`). In that chain a stored hash is
  stale. Once that repaired chain is rejected, every later `add` fails. A second
  repair changes nothing, and a rejected `add` leaves the chain as it was.

Some behaviours of the code are easy to miss. The model follows them:

- `add_transaction` does not validate; only the server's `add` handler does.
- There is no lock around ledger operations.
- Blocks are loaded in the directory listing's sorted filename order, not by index.
- In the `add` path, the transaction is pooled before `create_block` checks the
  chain. So on a rejected chain the pool keeps the transaction, the handler raises,
  and no reply is sent.
- After `verify`, `is_valid_chain` is guaranteed to pass only under the first
  condition above. That condition is sufficient, not necessary.

## Model

The definitions these rows build on model source code directly:

- `Ledger.Hash` models `hash` (src/server/blockchain.py:141-154).
- `Ledger.ValidProof` models `valid_proof` (src/server/blockchain.py:171-184).
- `Ledger.ValidChain` and `Ledger.DataValid` model the loop of `is_valid_chain` (src/server/blockchain.py:193-203).
- `Ledger.RepairWrites` models the saves of `verify_integrity` (src/server/blockchain.py:228).
- `Service.TxFor` is the transaction built in src/server/server.py:135-139.
- `Service.NextId` is the id issued in src/server/server.py:114.
- `Service.ExportOf`, `Service.Exports` and `Service.OwnedBy` model the export records and filters of the copy commands (src/server/server.py:187-235).

| member | source | states |
|---|---|---|
| `Ledger.HashIgnoresHashField` | src/server/blockchain.py:141-154 | two blocks that differ only in their stored `hash` field have the same digest |
| `Ledger.Seal` | src/server/blockchain.py:50 | setting `hash` to the digest yields a block whose stored hash is its own digest, with every other field kept |
| `Ledger.IsValidTransaction` | src/server/blockchain.py:120-139 | true exactly when `operation_type` is present and is `buy` or `sell`, and `stock_name` is present and non-empty |
| `Ledger.LeastProofUnique` | src/server/blockchain.py:166-169 | the least passing proof for a given last proof is unique, so the search result is determined |
| `Ledger.Genesis` | src/server/blockchain.py:36-50 | the genesis block has index 0, data `Genesis Block`, previous hash `0`, proof 100, the given timestamp, and its stored hash is its digest |
| `Ledger.PreviousHashFor` | src/server/blockchain.py:68-70 | the given previous hash is used unless it is absent or empty; otherwise the digest of the last block, or `0` on an empty chain |
| `Ledger.NewBlock` | src/server/blockchain.py:75-82 | the new block has index = chain length, data = the pool, the given proof and timestamp, the chosen previous hash, and its stored hash is its digest |
| `Ledger.ValidChainAppend` | src/server/blockchain.py:193-203 | a non-empty chain plus one block passes `is_valid_chain` exactly when the chain passes, the block's previous hash equals the stored hash of the last block, and the block's data is valid |
| `Ledger.AcceptedBlockKeepsChainValid` | src/server/server.py:149-153 | the block the `add` path appends (previous hash = recomputed digest of the last block) keeps a valid chain valid and fully sealed, when every stored hash is correct and every pooled transaction is valid |
| `Ledger.Relink` | src/server/blockchain.py:218-224 | one repair step links the block to the digest of its predecessor; it keeps index, timestamp, data and proof; it leaves a correctly linked block exactly as it was and reseals one it rewrites |
| `Ledger.Repaired` | src/server/blockchain.py:213-231 | the repaired chain has the input's length and the same first block |
| `Ledger.RepairedPrefix` | src/server/blockchain.py:216-231 | the first n blocks of the repaired chain are the repaired first n blocks: repair only looks backwards |
| `Ledger.RepairedKeepsFields` | src/server/blockchain.py:213-233 | repair keeps the chain length and every block's index, timestamp, data and proof |
| `Ledger.RepairedIsLinked` | src/server/blockchain.py:216-231 | after repair every block from 1 links to the recomputed digest of the block before; a block whose previous hash changed is sealed; a block whose previous hash did not change is unchanged |
| `Ledger.RepairedIdentityIffLinked` | src/server/blockchain.py:220 | repair changes nothing exactly when the chain is already linked to recomputed digests |
| `Ledger.RepairIdempotent` | src/server/blockchain.py:205-233 | a second repair pass changes no block and saves no block file |
| `Ledger.RepairWritesUnchanged` | src/server/blockchain.py:220-228 | a pass that leaves every block as it was writes no file |
| `Ledger.RepairedSealedChainIsValid` | src/server/blockchain.py:193-203 | when every stored hash is correct and all data after the genesis block is valid, the repaired chain passes `is_valid_chain` and stays sealed |
| `Ledger.RepairUndoesPreviousHashCorruption` | src/server/blockchain.py:216-231 | overwriting one non-genesis block's previous hash in a valid, sealed chain and then repairing gives back exactly the original chain, which passes `is_valid_chain` |
| `Ledger.RepairCanInvalidateValidChain` | src/server/blockchain.py:197 | for every hash function there is a chain that `is_valid_chain` accepts and rejects after repair, because the two checks use different link targets |
| `Ledger.Blockchain.constructor` | src/server/blockchain.py:19-34 | an empty load gives a one-block chain holding the genesis block and saves it as file 0; a non-empty load is kept as it is; the pool starts empty |
| `Ledger.Blockchain.LastBlock` | src/server/blockchain.py:249-257 | the last block of the chain, or none when the chain is empty |
| `Ledger.Blockchain.SaveBlock` | src/server/blockchain.py:89-104 | the file of the block's index now holds the block, overwriting any earlier content; chain and pool are unchanged |
| `Ledger.Blockchain.CreateGenesisBlock` | src/server/blockchain.py:36-52 | appends the genesis block whatever the chain holds, saves it as file 0, and leaves the pool alone |
| `Ledger.Blockchain.AddTransaction` | src/server/blockchain.py:107-118 | appends the transaction to the end of the pool without validating it; chain and files are unchanged; returns the last block's index plus one |
| `Ledger.Blockchain.ProofOfWork` | src/server/blockchain.py:156-184 | returns a non-negative proof that passes `valid_proof`, with no smaller non-negative proof passing |
| `Ledger.Blockchain.IsValidChain` | src/server/blockchain.py:186-203 | returns exactly `ValidChain(chain)`: each block from 1 links to the stored hash before it and holds valid data, and the genesis data is not inspected |
| `Ledger.Blockchain.CreateBlock` | src/server/blockchain.py:54-87 | on a chain that `is_valid_chain` rejects, returns the error and changes nothing; otherwise appends exactly `NewBlock(...)`, saves it under its index, empties the pool and returns it |
| `Ledger.Blockchain.VerifyIntegrity` | src/server/blockchain.py:205-233 | returns true; the chain becomes `Repaired` of the old chain; exactly the rewritten blocks are saved under their own index, in chain order; the pool is unchanged |
| `Decimal.NatToString` | src/server/blockchain.py:182 | the rendering is a non-empty string of decimal digits, starting with `0` only for zero |
| `Decimal.IntToString` | src/server/server.py:114 | the rendering is non-empty and starts with `-` exactly for negative numbers |
| `Decimal.ParseNatToString` | src/server/server.py:114 | parsing the decimal rendering of a natural number gives it back |
| `Decimal.IntToStringInjective` | src/server/server.py:114 | distinct integers have distinct renderings |
| `Words.Split` | src/server/server.py:86 | `split(' ')` gives at least one piece, and no piece contains a space |
| `Words.JoinSplit` | src/server/server.py:86 | joining the pieces with single spaces gives the message back |
| `Words.SplitJoin` | src/server/server.py:86 | splitting a join of space-free pieces gives the same pieces |
| `Service.RegisterIssuesFreshId` | src/server/server.py:111-117 | in a registry holding exactly the distinct ids 1 to n, a new name's id `str(n+1)` is held by no one, and the registry stays that way |
| `Service.TxExportsShape` | src/server/server.py:224-235 | a block's export records match its transactions one for one, in order, each carrying the block's timestamp, previous hash, proof and hash |
| `Service.OwnedByAppend` | src/server/server.py:190 | filtering by `user_id` distributes over concatenation |
| `Service.OwnedByMembers` | src/server/server.py:190 | a record is in the per-user filter exactly when it is in the input and carries that user id |
| `Service.ExportsAppend` | src/server/server.py:222-235 | one more block adds exactly that block's records at the end of the full export |
| `Service.ExportsEmptyIff` | src/server/server.py:237-244 | the full export is empty exactly when every block holds marker data or an empty list |
| `Service.UserTxExportsIsFilter` | src/server/server.py:189-200 | the in-block loop of the per-user copy is the block's records filtered by `user_id` |
| `Service.UserExportsIsFilter` | src/server/server.py:187-200 | the per-user copy is the full copy filtered by `user_id`: same records, same order |
| `Service.AddedTransactionIsExported` | src/server/server.py:146-153 | after the `add` path appends a block whose data is the old pool plus the new transaction, that user's export is the old user export, then the user's earlier pooled records, then the new transaction with the new block's info |
| `Service.Server.constructor` | src/server/server.py:27-51 | the registry is the loaded users and the pool starts empty; an empty load gives a chain of just the genesis block, saved as file 0, and a non-empty one is kept with its files; the chain is non-empty and the pool valid |
| `Service.Server.HandleRegister` | src/server/server.py:103-119 | a taken username answers `Username already taken` with the registry unchanged; a new one gets id `str(len(users)+1)`, the registry gains exactly that entry, and the reply is `Registered with ID: <id>` |
| `Service.Server.HandleAddTransaction` | src/server/server.py:121-155 | `AddDone` holds, and a chain that passes `is_valid_chain` with every stored hash correct stays so. An unregistered name answers `Username not registered` and an invalid transaction the invalid-transaction message; in both cases the ledger is unchanged. On a chain `is_valid_chain` rejects, the transaction stays pooled, the handler raises and no block is made. Otherwise exactly one block is appended: it holds the old pool plus the transaction, its proof is the least proof for the last block's proof, and its previous hash is the recomputed digest of the last block. The pool ends empty and the reply is `Transaction added` |
| `Service.Server.CopyUserTransactions` | src/server/server.py:173-211 | an unknown user answers `Username not registered`; otherwise it exports exactly the records of transactions with that user id, in chain order then in-block order, and the reply depends on whether that list is empty |
| `Service.Server.CopyAllTransactions` | src/server/server.py:213-246 | exports every transaction of every list-data block, in order, skipping the genesis marker; an empty result answers `No transactions found.` |
| `Service.Server.HandleCopyTransactions` | src/server/server.py:157-171 | two words mean a per-user copy, one word means copy-all, anything else is the usage message with nothing exported |
| `Service.Server.HandleVerifyIntegrity` | src/server/server.py:248-258 | runs the repair pass and always answers `The blockchain is valid and has not been altered.` |
| `Service.Server.HandleMessage` | src/server/server.py:86-101 | dispatches on the first space-separated word to the four handlers' effects; any other word answers `Unknown command` and changes neither the registry nor the ledger |

## Left out

- Sockets, the accept loop and one thread per client (src/server/server.py:37-39, 80-84, 260-270; src/main.py) are left out. The source has no lock, so the model is one sequential server handling one message at a time.
- The RSA/OAEP encryption (src/shared/encryption.py) and the client (src/client/client.py) are left out. Messages and responses are plain strings.
- SHA-256 and JSON serialisation are uninterpreted functions of a `Crypto` value. No collision resistance is assumed, and nothing proved depends on it.
- Timestamps (`time.time` and `strftime`) are parameters of the operations that stamp blocks.
- `load_chain_from_json` is not modelled. The constructor takes the loaded chain and the current block files as parameters. The source loads files in sorted filename order (`block_10.json` before `block_2.json`), so the loaded chain need not be in index order. The model assumes nothing about its order. The source loads every block file, so an empty load means no block file exists. The constructor does not demand this of `storedFiles`, and nothing proved depends on it.
- Loading and saving `users.json` is left out. The registry starts from a given map and lives in memory.
- File write failures are left out. `save_block_to_json` prints errors and carries on; `Ledger.Blockchain.SaveBlock` always succeeds. The directory setup is not modelled either.
- The `transactions_*.json` export files are not written. The copy handlers return the records they would write.
- Printing to the server console is left out.
- `isinstance(transaction, dict)` in the copy loops is always true in the model, because a block's data list holds transactions only. Only the three keys the ledger reads are modelled, and their values are strings when present. Non-string JSON values (such as `null`) and non-integer `index` or `proof` values are not modelled.
- Commands with too few words make the source raise `IndexError` (src/server/server.py:89, 130, 137-138). The model makes the needed word count a precondition: `CommandArity`, and `AddArity` for `add`.
- Ledger.Blockchain.ProofOfWork: requires a passing proof to exist (`Solvable`), because the source loops forever otherwise. `Service.Server.HandleAddTransaction` and `Service.Server.HandleMessage` require it only when the search is reached.
- Ledger.Blockchain.AddTransaction: requires a non-empty chain. On an empty chain the source raises a `TypeError` reading `None['index']`. The server never has an empty chain.
- Ledger.Blockchain.VerifyIntegrity: requires a non-empty chain. On an empty chain the source raises `IndexError` at `self.chain[0]`.
- `handle_verify_integrity` would raise if `verify_integrity` returned false, because `response` would be unbound. `verify_integrity` always returns true, so this path cannot happen and is not modelled.
