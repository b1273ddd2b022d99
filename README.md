# VK group to Telegram forwarder: record store and sync pass

This project is a Dafny model of the core of a small bot. The bot polls a VK group's wall and republishes each new post's text to a Telegram channel. It keeps a SQLite table `posts(id, post_text, published_in_telegram)` so that no text is published twice.

- `records.dfy`, module `Records`: the `posts` table.
  - The datatype `Record` is one row. The row's position in the sequence stands for its autoincrement `id`.
  - `Find` is the `SELECT ... WHERE post_text = ?` lookup. It is an exact-match scan.
  - The class `Store` holds the rows as a `seq<Record>` field. `Store.Save` is `save_post_to_db`, which appends one row. `Store.Exists` is `post_exists`.
- `sync.dfy`, module `Sync`: the body of `check_and_post_new_posts`.
  - `Cycle` is one pass over a fetched page, written as a method with a loop. For each text in page order, it checks the store. If the text is not stored, it publishes the text once and saves the outcome, even when the outcome is a failure. Only then does it move on to the next text.
  - `Pending` is the specification function for a pass. It gives the texts the pass attempts, in the order it attempts them. Lemmas state what that sequence is, independently of how it is computed:
    - it holds exactly the page's texts that are not yet stored;
    - it has no repeats;
    - it follows the order in which the texts first occur in the page.
  - `Run` applies `Cycle` to successive pages. It stands for the outer polling loop. The specification functions `RunRows` and `RunAttempted` give the table and the attempted texts after the passes, page by page. Lemmas about them state what holds across passes.
  - `TwoPolls` is a client that walks through two concrete polls.

The Telegram send is an oracle. `outcome(k)` is the value that `post_to_telegram` returns for the k-th attempt of a pass:
- `true` when the `try` block finished: the send, the success log line and the 5-second sleep;
- `false` when any of those raised an `Exception`.

An exception that is not an `Exception` (such as a task cancellation) propagates out of the pass instead; it is listed under "Left out".

The VK fetch is represented by the page, a sequence of post texts in the order the API returned them.

## Model

| member | source | states |
|---|---|---|
| `Records.Find` | main.py:85-92 | `post_exists(t)` is true exactly when some stored row's text equals `t` exactly (no normalisation) |
| `Records.FindAppend` | main.py:79-92 | after one row is inserted, a text is found iff it was found before or it is the inserted row's text |
| `Records.Store.Exists` | main.py:85-92 | `post_exists(t)` on the store's table: true exactly when some stored row's text equals `t` exactly |
| `Records.Store.constructor` | main.py:33-42 | the freshly created `posts` table has no rows |
| `Records.Store.Save` | main.py:75-82 | `save_post_to_db(t, p)` appends exactly the row `(t, p)` and leaves every earlier row unchanged; `post_exists(t)` holds immediately afterwards; no other text's presence changes |
| `Sync.PendingMembers` | main.py:101-104 | a pass attempts a text iff the page lists it and the store did not hold it: stored texts are never republished, and no new text is skipped |
| `Sync.PendingDistinct` | main.py:101-104 | a text that occurs several times in one page is attempted at most once, because the save comes before the next existence check |
| `Sync.PendingInPageOrder` | main.py:101-104 | attempted texts come from the page, and they are attempted in the order of their first occurrence in it |
| `Sync.CycleKeepsDistinct` | main.py:101-104 | if no two stored rows share a text before a pass, none do after it |
| `Sync.Cycle` | main.py:100-105 | one pass over a page attempts exactly `Pending` of the stored texts. It appends exactly one row per attempt, in attempt order, flagged with that attempt's outcome (including `false` when the send raised), and leaves the old rows as a prefix. Afterwards every page text is stored, no attempted text was stored before, and the no-repeated-text invariant is kept |
| `Sync.Run` | main.py:99-106 | successive passes leave exactly the table `RunRows`: each page's pass appends one row per attempted text, flagged with that attempt's outcome. The publisher receives exactly `RunAttempted`. The stored texts grow by exactly the attempted texts. No text is attempted twice or when stored beforehand. Every attempted text came from some page. Every text of every page ends up stored. Old rows are never changed, and the no-repeated-text invariant is kept |
| `Sync.RunAppends` | main.py:99-104 | successive passes only append: the old rows stay a prefix, and the text column grows by exactly the attempted texts |
| `Sync.RunAttemptsOnce` | main.py:99-104 | across passes no text is attempted twice or when it was stored before the first pass. Every attempted text came from some page. Every text of every page is stored afterwards, whether its send succeeded or not |
| `Sync.RunKeepsDistinct` | main.py:99-104 | if no two rows share a text before the passes, none do after them |

## Left out

- Fetching the wall (`get_new_posts`, main.py:53-58) is a VK API network call. The model takes the fetched page as an input sequence of texts. A fetch that raises ends the polling task before any row of that pass is written. That case is the same as not calling `Cycle` at all.
- The Telegram send and its logging (main.py:65-72) are network I/O. They are replaced by the boolean oracle `outcome`.
- The `asyncio.sleep` pacing (5 s after a successful send, 5 s after each save, 300 s between polls; main.py:68, 105, 106) only affects timing. It has no effect on the store.
- The endless `while True` loop and the background task (main.py:99, 109-113) are process lifetime and concurrency. `Run` models any finite number of polls instead.
- The `/start` command handler (main.py:45-50) is a static reply with no state.
- Bot, dispatcher, VK session and configuration setup (main.py:11-30) are bootstrap only. SQLite connection handling, `commit` and durability (main.py:33-42, 82) are I/O.
- Some failures end the pass after the rows already written:
  - a failing `INSERT` in `save_post_to_db` (main.py:79-82);
  - a failing `SELECT` in `post_exists` (main.py:89-92);
  - a fetched post without a `'text'` key (main.py:102);
  - an exception that is not an `Exception` (such as a cancellation) inside `post_to_telegram` (main.py:65-72).

  These are not modelled: in the model, `Save` and `Exists` always succeed, every post has a text, and every send yields `true` or `false`.
- The autoincrement `id` values are left out. A row's position in the sequence stands in for them.
