# Upload, validate, distribute and save: a verified model of the list controller

The Agent-distribution server lets an admin upload a contact list. The list is
a CSV, XLSX or XLS file. The server keeps the rows that have a first name and a
phone number, deals those rows out round-robin over the agents the admin
created, and stores one ListItem document per row, assigned to its agent. This
project models that pipeline, from `server/controllers/listController.js`, in
Dafny and proves what it guarantees:

- **The upload gate** (`fileFilter`, module `FileFilter`). Node's POSIX
  `path.extname` is modelled character by character. The gate accepts a name
  exactly when its lower-cased extension is `.csv`, `.xlsx` or `.xls`.
- **Row validation** (the `filter` in `uploadAndDistributeList`, module
  `Validation`). Cells are JavaScript values: strings, numbers and booleans,
  each with JavaScript truthiness. An absent column is a key missing from the
  row map.
- **Round-robin dealing** (`distributeItems`, module `Distribution`). There is
  one specification, `Deal`, and the loop method `DistributeItems` is proved to
  build it. Share sizes and the "record i goes to agent i mod K" rule are proved
  about `Deal`.
- **An independent check of the dealing** (module `Interleaving`). Reading the
  agents' lists back one element per agent per round rebuilds the validated
  rows. So no record is lost, duplicated or reordered.
- **Saving** (`saveDistributedItems`, module `Store`). A `Database` class holds
  the agents collection and the append-only ListItem collection. The nested save
  loops are methods proved against the save order `SaveOrder` and the returned
  map `SavedLists`.
- **The handler** (`uploadAndDistributeList`, module `ListController`). It runs
  its checks in the source's order, and its contract gives the response and the
  store on every path.

Decoded files are an input. `Upload.parsed` is what the CSV or spreadsheet
parser yields, or the error it throws. A rejected save is also an input:
`firstFailure` is the ordinal of the first save, within this request, that the
database rejects.

Where the code and the prose description of the system differ, the model
follows the code:

- `notes` is `item.Notes || ''`. A truthy non-string `Notes` cell, such as the
  number 5, is kept as it is. It is not replaced by `''`.
- Multer's `fileFilter` is what rejects an unsupported extension. The handler
  has no branch of its own for one: if such a file reached it, `listItems` would
  stay `undefined`, and filtering it would throw a TypeError, which the catch
  turns into a 500. `ParsedRows` models this.

## Model

| member | source | states |
|---|---|---|
| FileFilter.FileFilter | server/controllers/listController.js:25-32 | The callback either accepts the file or fails with the message "Only CSV, XLS, and XLSX files are allowed"; nothing else |
| FileFilter.AcceptsExactlyAllowed | server/controllers/listController.js:26-31 | For a name `stem + ext`, the gate accepts exactly when `ext` lower-cased is `.csv`, `.xlsx` or `.xls`, and rejects with the error exactly when it is not |
| FileFilter.ExtNameOfStemAndExt | server/controllers/listController.js:26 | The extension `path.extname` reports for `stem + ext` is `ext` itself, whenever the stem is non-empty and `ext` is one dot followed by dot-free, slash-free text |
| FileFilter.NoDotRejected | server/controllers/listController.js:26-30 | A name whose last component has no dot has the empty extension and is rejected |
| FileFilter.ExtNameShape | server/controllers/listController.js:26 | An extension is empty, or starts with its only '.' and holds no '/' |
| Validation.ValidItems | server/controllers/listController.js:100-104 | The filter keeps no more rows than it is given, and every row it keeps has truthy string `FirstName` and `Phone` |
| Validation.ValidItemsIsValidSubsequence | server/controllers/listController.js:100-104 | The kept rows are the input rows at strictly increasing positions, and a position is kept if and only if the row there is valid |
| Validation.NoValidItemsIff | server/controllers/listController.js:100-108 | The filter yields nothing exactly when no input row is valid |
| Distribution.ToRecord | server/controllers/listController.js:155-159 | A record copies `FirstName` and `Phone` unchanged and non-empty, and takes `Notes` when it is truthy and `''` otherwise |
| Distribution.DistributeItems | server/controllers/listController.js:142-163 | The two loops build exactly `Deal`: every agent is a key, and each agent's list holds, in order, the records of the rows whose index selects it modulo K |
| Distribution.DealPush | server/controllers/listController.js:151-159 | Dealing one more row appends its record to the list of `agentIds[i % K]` and leaves every other list as it was |
| Distribution.DealKeepsIdleAgents | server/controllers/listController.js:143-146 | The keys are exactly the agents, and an agent at position N or later keeps its empty list |
| Distribution.DealtByResidue | server/controllers/listController.js:151-159 | With distinct agent ids, agent j receives exactly the records at positions j, j + K, j + 2K, ..., in increasing order |
| Distribution.DealBalanced | server/controllers/listController.js:151-159 | Every agent receives ⌊N/K⌋ or ⌈N/K⌉ records |
| Distribution.DealSharesDifferByAtMostOne | server/controllers/listController.js:151-159 | Any two agents' shares differ in size by at most one |
| Distribution.DealFiveOverTwo | server/controllers/listController.js:142-163 | Rows A, B, C, D, E over agents W1, W2 give W1 = [A, C, E] and W2 = [B, D] |
| Interleaving.InterleaveRoundRobin | server/controllers/listController.js:151-159 | Lists that hold the elements at positions j, j + K, ... of a sequence, with round-robin share sizes, read back round by round give that sequence |
| Interleaving.DealInterleavesBack | server/controllers/listController.js:142-163 | Reading the agents' lists back round-robin rebuilds the validated sequence exactly, so the shares sum to N |
| Store.OwnedByExactly | server/controllers/listController.js:111 | The lookup returns the id of every agent the admin created, and only those ids |
| Store.OwnedByDistinct | server/controllers/listController.js:111 | The ids the lookup returns are pairwise distinct |
| Store.Database.FindAgents | server/controllers/listController.js:111 | The lookup returns the admin's agent ids, in collection order and distinct, and is recorded as one query |
| Store.Database.Save | server/controllers/listController.js:174-181 | A save appends one document with the record's fields and the agent, under the next identifier, or is rejected and changes nothing |
| Store.Database.SaveAgentItems | server/controllers/listController.js:173-183 | One agent's records are saved front to back, one save each. The store grows by the saves made before any rejection, and on success the method returns the saved documents in order |
| Store.Database.SaveDistributedItems | server/controllers/listController.js:166-189 | One save per distributed record, agent by agent, with no deduplication. The store grows by the first `firstFailure` saves (all of them if none is rejected), earlier saves stay, and on success the result is `SavedLists` |
| Store.SaveOrderPrefix | server/controllers/listController.js:169-186 | The saves for the first a agents are a prefix of the saves for the first n agents |
| Store.FailureWithinAgent | server/controllers/listController.js:173-183 | A save rejected inside agent a's list leaves exactly the first `firstFailure` saves of the whole request in the store |
| Store.SavedForInStore | server/controllers/listController.js:173-185 | The m-th document saved for agent i carries that agent and its m-th record, and the store holds it under its identifier |
| Store.SavedListsKeys | server/controllers/listController.js:169-185 | The returned map has exactly the agents walked so far as keys |
| Store.SavedListsAt | server/controllers/listController.js:185 | With distinct agent ids, each agent maps to the documents saved for it; no later agent overwrites its entry |
| ListController.ParsedRows | server/controllers/listController.js:82-97 | A name the gate accepts reaches its parser's outcome; any other name ends in the TypeError that filtering the unassigned list throws |
| ListController.UploadAndDistributeList | server/controllers/listController.js:75-139 | No file gives 400; a parse error gives 500. No valid rows gives 400 before the agent lookup. No agents gives 400 after the one lookup. All of these leave the store unchanged. Otherwise the store and the response are those of dealing and saving |
| ListController.DistributeAndSave | server/controllers/listController.js:117-127 | Distribute, then save, then answer 200 with the count of valid rows and the saved map, or 500 on a rejected save |
| ListController.SaveCountIsRecordCount | server/controllers/listController.js:166-189 | Saving a dealt distribution makes exactly one save per record |
| ListController.SavedAndAnsweredCounts | server/controllers/listController.js:121-138 | The store only grows. A 200 answer adds exactly one document per valid row and reports `totalItems` equal to the valid count; a 500 answer adds fewer |
| ListController.SuccessListsMatchDeal | server/controllers/listController.js:123-127 | In a 200 answer every agent is a key, and the m-th document under an agent is the m-th record dealt to it, with `assignedAgent` that agent, and is in the store under its identifier |

## Left out

- CSV and spreadsheet decoding (`parseCSV`, `parseExcel`) are not modelled. They wrap the csv-parser and xlsx libraries, and their result is the input `Upload.parsed`.
- Multer's disk storage, the generated file name (`Date.now`, `Math.random`) and the 5 MB size limit are not modelled. They live inside multer and depend on the clock and randomness.
- How multer passes the filter's error on is not modelled. `FileFilter.FileFilter` returns the callback's outcome as a value.
- Deleting the uploaded file on each exit path is not modelled, because it is file-system I/O.
- The console log in the catch is not modelled, because it is I/O.
- Failing database calls: `FindAgents` never fails. A rejected save is the abstract input `firstFailure`, and its message is the constant `SaveErrorMessage`, not Mongoose's actual text.
- Database-generated ObjectIds are modelled as positions in the ListItem collection. The schema's trimming, `required` checks and `createdAt` are not modelled.
- The read handlers `getListsByAgent` and `getAllDistributedLists` are not modelled. They are database lookups with no logic of their own.
- The agent controller, the routes and the user interface are not part of this model.
- Key order of the distribution object: `for ... in` is modelled as visiting the agents in lookup order. This is insertion order, because ObjectId strings are not array-index keys.
- Concurrency and `await` interleavings between requests are not modelled. The model treats one request at a time.
- Cells that are NaN or Date values are not modelled. A cell is a string, a number or a boolean.
- FileFilter.ToLower: lowercases only the ASCII letters. An extension with non-ASCII letters that JavaScript's `toLowerCase` would map to ASCII is treated differently.
