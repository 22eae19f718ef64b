# agentic_testing handlers and prompt assets, modelled in Dafny

This project models three pieces of the agentic_testing repository:

- **Stock reservation** (`src/inventory/handlers.py`, `reserve`). One DynamoDB
  table, keyed by its `sku` attribute, holds stock records (key = SKU, with a
  `qty`) and idempotency markers (key = `idem#<request_id>`, with a `ttl`).
  The handler validates `sku`, `qty > 0` and `request_id`. It then puts the
  marker only if its key is absent; if the key exists it answers "duplicate".
  Next it decrements `qty` only if `qty >= requested`; if not, it answers 409
  and leaves the marker in place. On success it publishes an
  "InventoryReserved" event when a bus is configured. `Inventory.Service` is a
  class whose fields are the table (`map<string, Item>`) and the event log.
  Each store call is one method and one atomic step. `Service.Reserve` is
  proved equal to the pure `ReserveOutcome`, and the lemmas about
  `ReserveOutcome` and about runs of many calls (`Run`) state the invariants.
- **CSV ingestion** (`src/ingestor/process_csv.py`, `handler`). Over the rows
  of the first S3 record, keep the rows with a non-empty `customer_id` and
  `email`, count them, and publish one "CustomerUpserted" event per kept row
  when a bus is configured (`Ingestor.Handler`, a loop proved against
  `KeptRows` and `Published`).
- **Prompt assets** (`habeeba_run.py`). `gather_files_text` concatenates
  headed file texts and, over a byte budget, cuts the UTF-8 form and drops a
  partial trailing character, then appends a notice (`Assets.GatherFilesText`,
  nested loops). `fill_template` is six chained `str.replace` calls
  (`Assets.FillTemplate`). Python's UTF-8 codec is modelled in `Utf8`: strict
  decoding and `errors="ignore"`. `str.replace` and `str.split` are modelled in
  `Text`.

Files: `wrappers.dfy` (Option, Result), `inventory.dfy`, `ingestor.dfy`,
`utf8.dfy`, `text.dfy`, `assets.dfy`.

Two behaviours of the code are kept as written:

- Only `ConditionalCheckFailedException` is caught. A store or event-bus
  failure raises out of the handler; the code has no "store unavailable"
  answer and does not swallow a failed publication.
- Markers share the table and the key attribute with stock records. A SKU
  literally named `idem#<id>` is therefore the marker key of request `<id>`.
  The model keeps this: such a request answers duplicate. A request whose SKU
  is its own marker key answers 409, because a marker has no `qty`.

## Model

| member | source | states |
|---|---|---|
| `Inventory.ReserveOutcome` | src/inventory/handlers.py:8-45 | 400 exactly for invalid input, and then nothing changes; status is 200, 400 or 409; only the marker key and the SKU key may change; no key disappears; non-negative stock stays non-negative; the log grows by one entry only on success with a bus |
| `Inventory.Service.Reserve` | src/inventory/handlers.py:8-45 | the new table, event log and response are those `ReserveOutcome` gives for the old state |
| `Inventory.Service.PutIfAbsent` | src/inventory/handlers.py:15-22 | the conditional put writes exactly when the key is absent and reports whether it wrote |
| `Inventory.Service.DecrementIfCovered` | src/inventory/handlers.py:25-35 | the conditional update happens exactly when the item has a `qty >= q`; the new `qty` is `old - q` and is returned; otherwise nothing changes |
| `Inventory.Service.PutEvent` | src/inventory/handlers.py:39-44 | publishing appends one entry to the log and leaves the table alone |
| `Inventory.WellFormed` | src/inventory/handlers.py:11 | the validation: `sku` and `request_id` present and non-empty, `qty > 0`; its meaning is carried by `ReserveOutcome` (400 exactly when it fails) |
| `Inventory.Covers` | src/inventory/handlers.py:30 | the store condition `qty >= :q`, false for a missing item or a marker; its meaning is carried by `DecrementIfCovered` and `ReservesOnlyWhenCovered` |
| `Inventory.Service.constructor` | src/inventory/handlers.py:3-6 | a service starts from the given table and bus name with an empty log |
| `Inventory.MarkerKeyInjective` | src/inventory/handlers.py:18 | distinct request ids have distinct `idem#` marker keys |
| `Inventory.MarkerKey` | src/inventory/handlers.py:18 | the marker's key `f"idem#{req}"`; its meaning is carried by `MarkerKeyInjective` (one key per request id) and `FirstSeenInsertsMarker` (a first call adds exactly that key) |
| `Inventory.DuplicateChangesNothing` | src/inventory/handlers.py:14-22 | an existing marker gives 200 `{"status":"duplicate","request_id":req}` and an unchanged store, whatever `qty` is asked |
| `Inventory.FirstSeenInsertsMarker` | src/inventory/handlers.py:16-20 | a new request id adds exactly one key, its marker, with `ttl = now + 86400`, and is not a duplicate |
| `Inventory.ReservesOnlyWhenCovered` | src/inventory/handlers.py:25-45 | success exactly when the input is valid, the id is new and `qty >= requested`; the answer is 200 with `remaining = old - requested`, which the stock record then holds |
| `Inventory.InsufficientPinsRequestId` | src/inventory/handlers.py:15-35 | 409 `{"error":"insufficient"}` leaves the stock unchanged but keeps the marker, so a retry with the same id and any quantity is a duplicate |
| `Inventory.EventOnlyOnSuccess` | src/inventory/handlers.py:37-44 | an event is published exactly on success with a non-empty bus, and it carries sku, requested qty, remaining and request id |
| `Inventory.Run` | src/inventory/handlers.py:8-45 | handling a sequence of calls one after another yields one response per call |
| `Inventory.RunKeepsStockNonNegative` | src/inventory/handlers.py:26-33 | after any sequence of calls no stock record is negative if none was before |
| `Inventory.MarkerPinsLaterCalls` | src/inventory/handlers.py:15-22 | once a marker exists, every later valid call with its id is a duplicate |
| `Inventory.AdmittedAtMostOnce` | src/inventory/handlers.py:15-22 | of two valid calls with the same request id, the later one is a duplicate |
| `Inventory.StockStep` | src/inventory/handlers.py:26-33 | one call changes a stock record only by the quantity of a successful reservation on it |
| `Inventory.StockConservation` | src/inventory/handlers.py:26-33 | after any sequence of calls a SKU's stock is its initial stock minus the units successfully reserved on it |
| `Inventory.NeverOversold` | src/inventory/handlers.py:26-33 | the units reserved on a SKU never exceed its initial stock |
| `Inventory.ReplayAndShortageScenario` | src/inventory/handlers.py:8-45 | stock 10: r1 for 7 leaves 3, its replay is a duplicate, r2 for 5 gets 409, stock stays 3 |
| `Inventory.ContendedReservation` | src/inventory/handlers.py:25-35 | two reservations that fit the stock alone but not together: the first gets `stock - first`, the second 409 |
| `Ingestor.KeptRows` | src/ingestor/process_csv.py:14-17 | the kept rows number at most the rows, are rows of the input, and each has both fields |
| `Ingestor.HasValue` | src/ingestor/process_csv.py:15 | `row.get(name)` is truthy: the column is present and non-empty; carried by `Kept` |
| `Ingestor.Kept` | src/ingestor/process_csv.py:15 | the negation of the skip test `not row.get("customer_id") or not row.get("email")`; carried by `CountIsNumberOfKeptRows` (the count is the number of such rows) and `SkippedRowChangesNothing` (a row failing it changes nothing) |
| `Ingestor.Published` | src/ingestor/process_csv.py:17-28 | no events without a bus; with one, one event per kept row in row order, carrying `customer_id`, `email` and `segment` (default `""`) |
| `Ingestor.Segment` | src/ingestor/process_csv.py:26 | `row.get("segment", "")`; carried by `Published` |
| `Ingestor.Upserted` | src/ingestor/process_csv.py:19-28 | the "CustomerUpserted" entry of a kept row with source `app.crm`, the bus name, `customer_id`, `email` and segment; carried by `Published` and `Handler` |
| `Ingestor.Handler` | src/ingestor/process_csv.py:8-29 | empty `Records` is an error; otherwise `{"ok": True, "emitted": count}` with count the kept rows of the first record, and the published events are `Published` (none without a bus, count unchanged) |
| `Ingestor.CountIsNumberOfKeptRows` | src/ingestor/process_csv.py:14-17 | the count equals the number of row indices whose `customer_id` and `email` are both present and non-empty |
| `Ingestor.KeptRowsAppend` | src/ingestor/process_csv.py:14-17 | filtering a concatenation filters each part in order |
| `Ingestor.PublishedFollowsKeptRows` | src/ingestor/process_csv.py:14-28 | two row lists with the same kept rows publish the same events: the events depend on a row only through the skip test |
| `Ingestor.SkippedRowChangesNothing` | src/ingestor/process_csv.py:15-16 | a row lacking either field adds nothing to the count and no event |
| `Utf8.EncodeChar` | habeeba_run.py:50 | one character encodes to 1 to 4 bytes: a lead byte announcing the length, then continuation bytes |
| `Utf8.Encode` | habeeba_run.py:50 | a string of n characters encodes to between n and 4n bytes |
| `Utf8.DecodeFirst` | habeeba_run.py:52-56 | a decoded sequence has the length its lead byte announces and lies within the input |
| `Utf8.Decode` | habeeba_run.py:53-56 | `decode("utf-8", errors="ignore")` with a flag for whether strict decoding would raise; it has no contract of its own, and its meaning is carried by `DecodeEncode` (round trip), `DecodeAfterChar`, `DecodeContinuations`, `DecodePartial` and `DecodeTruncated` |
| `Utf8.DecodeStrict` | habeeba_run.py:53-54 | strict `decode("utf-8")`, None where Python raises; carried by `DecodeEncode` and `DecodeTruncated` (succeeds exactly on a character boundary) |
| `Utf8.EncodeAppend` | habeeba_run.py:50 | the encoding of a concatenation is the concatenation of the encodings |
| `Utf8.EncodeCons` | habeeba_run.py:50 | the encoding of a string is its first character's bytes followed by the encoding of the rest |
| `Utf8.DecodeAfterChar` | habeeba_run.py:55-56 | after a whole encoded character, decoding emits that character and goes on with the remaining bytes, whether or not they are well formed |
| `Utf8.DecodeFirstEncodeChar` | habeeba_run.py:52-54 | the first sequence of an encoding decodes back to its character |
| `Utf8.DecodeEncode` | habeeba_run.py:52-54 | decoding an encoding returns the string, and strict decoding succeeds |
| `Utf8.DecodeContinuations` | habeeba_run.py:55-56 | stray continuation bytes are dropped under `errors="ignore"` |
| `Utf8.DecodePartial` | habeeba_run.py:55-56 | a proper prefix of one character's encoding decodes to nothing, and strict decoding fails unless it is empty |
| `Utf8.LongestFittingPrefix` | habeeba_run.py:51-56 | the longest prefix of a string, in characters, whose UTF-8 form fits a byte budget; both `DecodeTruncated` and `GatherFilesText` state their result with it |
| `Utf8.DecodeTruncated` | habeeba_run.py:51-56 | decoding the first k bytes of an encoding gives the longest prefix whose encoding fits in k bytes, and strict decoding succeeds exactly when k is on a character boundary |
| `Text.ReplaceAll` | habeeba_run.py:102-107 | `str.replace` by a left-to-right scan; carried by `ReplaceAllIsSplitJoin`, `SplitJoin`, `SplitPiecesFree`, `SplitAtLeftmost` and `ReplaceAllWithoutOccurrence` |
| `Text.Split` | habeeba_run.py:101-108 | `split` yields at least one piece, and the first piece is a prefix of the string |
| `Text.ReplaceAllIsSplitJoin` | habeeba_run.py:101-108 | `t.replace(p, r)` equals `r.join(t.split(p))` |
| `Text.SplitJoin` | habeeba_run.py:101-108 | `p.join(t.split(p)) == t`: the pieces and occurrences make up the whole string |
| `Text.SplitPiecesFree` | habeeba_run.py:101-108 | no piece contains the pattern, so every occurrence is replaced |
| `Text.SplitAtLeftmost` | habeeba_run.py:102-107 | the split is made at the leftmost occurrence: no occurrence starts inside the first piece, the pattern follows it, and the other pieces are the split of the rest; with one piece the piece is the whole string. With `SplitJoin` this fixes `split` uniquely, also for a pattern that overlaps itself |
| `Text.SplitWithoutOccurrence` | habeeba_run.py:101-108 | a string without the pattern splits into itself |
| `Text.ReplaceAllWithoutOccurrence` | habeeba_run.py:101-108 | a string without the pattern is not changed by `replace` |
| `Assets.Part` | habeeba_run.py:48 | the headed part `"\n===== FILE: <rel> =====\n<text>\n"`; carried by `GatherFilesText` through `Blob` |
| `Assets.PartsOfPatterns` | habeeba_run.py:42-48 | the parts of all patterns, pattern by pattern; carried by `BlobFollowsPatternOrder` |
| `Assets.Concat` | habeeba_run.py:49 | `"".join(parts)`; carried by `ConcatAppend` |
| `Assets.Blob` | habeeba_run.py:41-49 | the untruncated blob; carried by `GatherFilesText`, `BlobFollowsPatternOrder`, `ReadablePartAppended` and `UnreadableSkipped` |
| `Assets.PartsOfMatches` | habeeba_run.py:43-48 | one pattern contributes at most one part per match |
| `Assets.OverBudget` | habeeba_run.py:50 | the truncation test `max_bytes is not None and len(blob.encode("utf-8")) > max_bytes`; carried by `GatherFilesText`, whose ensures split on it (exactly the blob when it fails, the longest fitting prefix and the notice when it holds) |
| `Assets.SliceEnd` | habeeba_run.py:52 | `bs[:max_bytes]` keeps at most `max_bytes` bytes for a non-negative budget, all of it when there are enough, and cuts at least one byte when over budget; a negative budget drops that many bytes from the end, or all of them |
| `Assets.GatherFilesText` | habeeba_run.py:34-58 | a missing root gives `""`; within budget (or no budget) the result is exactly the blob of headed parts; only over budget is it truncated, and then it is the longest prefix of the blob whose UTF-8 form fits `max_bytes` bytes (for a negative budget, the slice end), followed by the notice |
| `Assets.ConcatAppend` | habeeba_run.py:49 | `"".join` of a concatenation is the concatenation of the joins |
| `Assets.BlobFollowsPatternOrder` | habeeba_run.py:42-49 | the blob of a further pattern is the blob so far followed by that pattern's parts |
| `Assets.ReadablePartAppended` | habeeba_run.py:44-48 | a readable match adds its headed part after the parts before it |
| `Assets.UnreadableSkipped` | habeeba_run.py:44-47 | a file whose read fails contributes nothing |
| `Assets.FillTemplate` | habeeba_run.py:94-108 | the six chained `replace` calls in the fixed order; carried by `FillTemplateWithoutPlaceholders`, `FillTemplateChainsSubstitutions` and the `Text` split/join lemmas |
| `Assets.FillTemplateWithoutPlaceholders` | habeeba_run.py:101-108 | a template with none of the six placeholders is returned unchanged |
| `Assets.FillTemplateChainsSubstitutions` | habeeba_run.py:101-108 | for every set of assets, filling the template `{RULES_TEXT}` gives the rules asset with the other five substitutions applied to it: later placeholders inside an earlier asset are substituted too |

## Left out

- JSON decoding of the request body and `int(body.get("qty", 0))`: `Request` holds the decoded `sku`, `qty` and `request_id`. A missing `qty` is 0. Non-numeric `qty`, which raises in the handler, is not modelled.
- `time.time()`: the handler's time is the parameter `now`, already truncated to whole seconds.
- Store and event-bus failures in `reserve` other than a failed condition: they raise out of the handler, and the model has no such path.
- A failing `events.put_events` in the ingestor's loop: it raises out of the handler after the earlier events were already published. The model publishes every event.
- `f.relative_to(ROOT)` in `gather_files_text`: it is outside the `try` and raises `ValueError` for a root outside the script's directory. The model takes each relative path as given.
- Concurrency: each `put_item` and `update_item` is one atomic map step. `Run` models calls handled one after another, not steps of different calls interleaved. TTL expiry of markers by the store is not modelled.
- Stock-record attributes other than `qty`: the store keeps them and the handler never reads them.
- S3 access and CSV parsing in the ingestor: each record in `records` stands for the rows that `csv.DictReader` yields for the object it names. Missing `bucket`/`object` keys are not modelled.
- `csv.DictReader` gives `None` for the cells of a short row and collects extra cells under the key `None`. Rows here map column names to strings only, so a short row's `segment` reads as `""` rather than `None`.
- The file system in `gather_files_text`: `root.exists()`, `rglob`, `read_text` and `relative_to` are inputs. `matches[i]` is what `sorted(root.rglob(globs[i]))` yields, already in sorted order. The ordering of `pathlib` paths is not modelled.
- Paths that hold lone surrogates, for which `str.encode("utf-8")` raises: a Dafny `char` is a Unicode scalar value.
- `fill_template`'s `X or ""` is the identity on strings. `safe_read` turns a missing file into `""`, so each asset is a plain string.
- The LLM calls, HTTP client, output files and run folders of `habeeba_run.py`, `run.py` and `judge_prompts.py`. The `gather_files_text` of `judge_prompts.py` is the same as the one modelled here. `auto_metrics` and `coerce_json` wrap regular expressions and JSON parsing. `validate_xml.py` wraps XML parsing. `src/orders/handlers.py`, `src/ops/health.py` and `src/receipts/worker.py` are plain CRUD or constant responses.
