/**
 One pass of the sync loop of the forwarder, and successive passes over
 successive pages. A pass walks the fetched page in order; for each text that
 the store does not hold yet it calls the publisher once and records the
 outcome, success or failure, before looking at the next text.

 The publisher is an oracle: `outcome(k)` is what the k-th publish attempt of
 the pass returns, `true` when the Telegram send completed and `false` when it
 raised.
 */
module Sync {
  import opened Records

  /**
   The texts a pass over `page` attempts to publish, in the order it attempts
   them, when the store already holds the texts `known`. Each attempted text is
   recorded before the next one is checked, so it joins `known` at once.
   */
  function Pending(known: seq<string>, page: seq<string>): (todo: seq<string>)
    decreases |page|
  {
    if page == [] then []
    else if page[0] in known then Pending(known, page[1..])
    else [page[0]] + Pending(known + [page[0]], page[1..])
  }

  /** The position of the first occurrence of `t` in `s`. */
  function IndexOf(s: seq<string>, t: string): (k: nat)
    requires t in s
    ensures k < |s| && s[k] == t && t !in s[..k]
  {
    if s[0] == t then 0
    else
      var k := 1 + IndexOf(s[1..], t);
      assert s[..k] == [s[0]] + s[1..][..k - 1];
      k
  }

  /** The rows a pass appends: one per attempt, flagged with that attempt's outcome. */
  function Attempts(texts: seq<string>, outcome: nat -> bool): (recs: seq<Record>)
  {
    seq(|texts|, i requires 0 <= i < |texts| => Record(texts[i], outcome(i)))
  }

  /** The publish oracle of pass `c` of the polling loop. */
  function PassOutcome(outcome: (nat, nat) -> bool, c: nat): (pass: nat -> bool)
  {
    (a: nat) => outcome(c, a)
  }

  /**
   The table after one pass over `page`: the old rows followed by one row per
   attempted text, flagged with that attempt's outcome.
   */
  function PassRows(rows: seq<Record>, page: seq<string>, outcome: nat -> bool): (after: seq<Record>)
  {
    rows + Attempts(Pending(Column(rows), page), outcome)
  }

  /** The table after one pass per page of `pages`, in order. */
  function RunRows(rows: seq<Record>, pages: seq<seq<string>>, outcome: (nat, nat) -> bool): (after: seq<Record>)
    decreases |pages|
  {
    if pages == [] then rows
    else
      var c := |pages| - 1;
      PassRows(RunRows(rows, pages[..c], outcome), pages[c], PassOutcome(outcome, c))
  }

  /** The texts handed to the publisher by one pass per page of `pages`, in call order. */
  function RunAttempted(rows: seq<Record>, pages: seq<seq<string>>, outcome: (nat, nat) -> bool): (texts: seq<string>)
    decreases |pages|
  {
    if pages == [] then []
    else
      var c := |pages| - 1;
      RunAttempted(rows, pages[..c], outcome) + Pending(Column(RunRows(rows, pages[..c], outcome)), pages[c])
  }

  /** Running one more page adds exactly that page's pass. */
  lemma RunStep(rows: seq<Record>, pages: seq<seq<string>>, outcome: (nat, nat) -> bool, k: nat)
    requires k < |pages|
    ensures RunRows(rows, pages[..k + 1], outcome)
         == PassRows(RunRows(rows, pages[..k], outcome), pages[k], PassOutcome(outcome, k))
    ensures RunAttempted(rows, pages[..k + 1], outcome)
         == RunAttempted(rows, pages[..k], outcome) + Pending(Column(RunRows(rows, pages[..k], outcome)), pages[k])
  {
    assert pages[..k + 1][..k] == pages[..k];
  }

  /** The text column after a pass is the old column followed by the attempted texts. */
  lemma PassColumn(rows: seq<Record>, page: seq<string>, outcome: nat -> bool)
    ensures Column(PassRows(rows, page, outcome)) == Column(rows) + Pending(Column(rows), page)
  {
    var todo := Pending(Column(rows), page);
    ColumnAppend(rows, Attempts(todo, outcome));
    assert Column(Attempts(todo, outcome)) == todo;
  }

  /**
   Successive passes only append: the old rows stay a prefix, and the text
   column grows by exactly the attempted texts.
   */
  lemma {:induction false} RunAppends(rows: seq<Record>, pages: seq<seq<string>>, outcome: (nat, nat) -> bool)
    ensures |RunRows(rows, pages, outcome)| >= |rows|
    ensures RunRows(rows, pages, outcome)[..|rows|] == rows
    ensures Column(RunRows(rows, pages, outcome)) == Column(rows) + RunAttempted(rows, pages, outcome)
    decreases |pages|
  {
    if pages != [] {
      var c := |pages| - 1;
      var before := RunRows(rows, pages[..c], outcome);
      RunAppends(rows, pages[..c], outcome);
      PassColumn(before, pages[c], PassOutcome(outcome, c));
      assert RunRows(rows, pages, outcome)[..|rows|] == before[..|rows|];
    }
  }

  /**
   Across successive passes a text is attempted at most once, never when it
   was stored before the first pass, and only when some page lists it; every
   text of every page ends up stored.
   */
  lemma {:induction false} RunAttemptsOnce(rows: seq<Record>, pages: seq<seq<string>>, outcome: (nat, nat) -> bool)
    ensures Distinct(RunAttempted(rows, pages, outcome))
    ensures forall t :: t in RunAttempted(rows, pages, outcome) ==>
      t !in Column(rows) && exists c :: 0 <= c < |pages| && t in pages[c]
    ensures forall c, t :: 0 <= c < |pages| && t in pages[c] ==> t in Column(RunRows(rows, pages, outcome))
    decreases |pages|
  {
    if pages != [] {
      var c := |pages| - 1;
      var earlier := pages[..c];
      var before := RunRows(rows, earlier, outcome);
      var done := RunAttempted(rows, earlier, outcome);
      var batch := Pending(Column(before), pages[c]);
      RunAttemptsOnce(rows, earlier, outcome);
      RunAppends(rows, earlier, outcome);
      PassColumn(before, pages[c], PassOutcome(outcome, c));
      PendingDistinct(Column(before), pages[c]);
      forall t ensures t in batch <==> t in pages[c] && t !in Column(before) {
        PendingMembers(Column(before), pages[c], t);
      }
      DistinctConcat(done, batch);
      forall t | t in done + batch ensures t !in Column(rows) && exists c' :: 0 <= c' < |pages| && t in pages[c'] {
        if t in done {
          var c' :| 0 <= c' < c && t in earlier[c'];
          assert earlier[c'] == pages[c'];
        }
      }
      forall c', t | 0 <= c' < |pages| && t in pages[c'] ensures t in Column(RunRows(rows, pages, outcome)) {
        if c' < c {
          assert earlier[c'] == pages[c'];
        }
      }
    }
  }

  /** If no two rows share a text before the passes, none do after them. */
  lemma RunKeepsDistinct(rows: seq<Record>, pages: seq<seq<string>>, outcome: (nat, nat) -> bool)
    requires Distinct(Column(rows))
    ensures Distinct(Column(RunRows(rows, pages, outcome)))
  {
    RunAppends(rows, pages, outcome);
    RunAttemptsOnce(rows, pages, outcome);
    DistinctConcat(Column(rows), RunAttempted(rows, pages, outcome));
  }

  /**
   A text is attempted exactly when the page lists it and the store does not
   hold it: stored texts are never published again, and no new text of the
   page is skipped.
   */
  lemma {:induction false} PendingMembers(known: seq<string>, page: seq<string>, t: string)
    ensures t in Pending(known, page) <==> t in page && t !in known
    decreases |page|
  {
    if page != [] {
      var rest := page[1..];
      assert page == [page[0]] + rest;
      if page[0] in known {
        PendingMembers(known, rest, t);
      } else {
        PendingMembers(known + [page[0]], rest, t);
      }
    }
  }

  /** A text repeated within one page is attempted at most once. */
  lemma {:induction false} PendingDistinct(known: seq<string>, page: seq<string>)
    ensures Distinct(Pending(known, page))
    decreases |page|
  {
    if page != [] {
      if page[0] in known {
        PendingDistinct(known, page[1..]);
      } else {
        var grown := known + [page[0]];
        var tail := Pending(grown, page[1..]);
        PendingDistinct(grown, page[1..]);
        PendingMembers(grown, page[1..], page[0]);
        assert page[0] !in tail;
      }
    }
  }

  /**
   Texts are attempted in the order of their first occurrence in the page:
   of two attempted texts, the one attempted earlier first appears earlier.
   */
  lemma {:induction false} PendingInPageOrder(known: seq<string>, page: seq<string>)
    ensures forall t :: t in Pending(known, page) ==> t in page
    ensures forall i, j :: 0 <= i < j < |Pending(known, page)| ==>
      Pending(known, page)[i] in page && Pending(known, page)[j] in page &&
      IndexOf(page, Pending(known, page)[i]) < IndexOf(page, Pending(known, page)[j])
    decreases |page|
  {
    forall t ensures t in Pending(known, page) ==> t in page {
      PendingMembers(known, page, t);
    }
    if page != [] {
      var x, rest := page[0], page[1..];
      var grown := if x in known then known else known + [x];
      var tail := Pending(grown, rest);
      PendingInPageOrder(grown, rest);
      // Every text attempted after `x` differs from `x`, so it first occurs in `rest`.
      forall t | t in tail ensures t != x && IndexOf(page, t) == 1 + IndexOf(rest, t) {
        PendingMembers(grown, rest, t);
      }
    }
  }

  /**
   A pass keeps the store free of repeated texts: the texts it appends are
   distinct and none of them was stored before.
   */
  lemma CycleKeepsDistinct(rows: seq<Record>, page: seq<string>, outcome: nat -> bool)
    requires Distinct(Column(rows))
    ensures Distinct(Column(rows + Attempts(Pending(Column(rows), page), outcome)))
  {
    var todo := Pending(Column(rows), page);
    var after := Column(rows + Attempts(todo, outcome));
    ColumnAppend(rows, Attempts(todo, outcome));
    assert Column(Attempts(todo, outcome)) == todo;
    PendingDistinct(Column(rows), page);
    forall t | t in todo ensures t !in Column(rows) {
      PendingMembers(Column(rows), page, t);
    }
    DistinctConcat(Column(rows), todo);
  }

  /**
   The body of `check_and_post_new_posts` for one fetched page: for each text
   in page order, if the store does not hold it, publish it and save the
   outcome. Returns the texts handed to the publisher, in call order.
   */
  method Cycle(store: Store, page: seq<string>, outcome: nat -> bool) returns (attempted: seq<string>)
    modifies store
    ensures attempted == Pending(Column(old(store.rows)), page)
    ensures store.rows == old(store.rows) + Attempts(attempted, outcome)
    ensures forall t :: t in attempted <==> t in page && !old(store.Exists(t))
    ensures Distinct(attempted)
    ensures Column(store.rows) == Column(old(store.rows)) + attempted
    ensures forall t :: t in attempted ==> t !in Column(old(store.rows))
    ensures forall t :: t in page ==> store.Exists(t) && t in Column(store.rows)
    ensures Distinct(Column(old(store.rows))) ==> Distinct(Column(store.rows))
  {
    ghost var start := store.rows;
    attempted := [];
    var i := 0;
    while i < |page|
      invariant 0 <= i <= |page|
      invariant store.rows == start + Attempts(attempted, outcome)
      invariant attempted + Pending(Column(store.rows), page[i..]) == Pending(Column(start), page)
    {
      var text := page[i];
      assert page[i..] == [text] + page[i + 1..];
      FindColumn(store.rows, text);
      ghost var known := Column(store.rows);
      if !store.Exists(text) {
        var published := outcome(|attempted|);
        ColumnAppend(store.rows, [Record(text, published)]);
        assert Column([Record(text, published)]) == [text];
        assert Pending(known, page[i..]) == [text] + Pending(known + [text], page[i + 1..]);
        store.Save(text, published);
        assert Attempts(attempted + [text], outcome) == Attempts(attempted, outcome) + [Record(text, published)];
        attempted := attempted + [text];
      }
      i := i + 1;
    }
    PendingDistinct(Column(start), page);
    ColumnAppend(start, Attempts(attempted, outcome));
    assert Column(Attempts(attempted, outcome)) == attempted;
    forall t ensures t in attempted <==> t in page && !Find(start, t) {
      PendingMembers(Column(start), page, t);
      FindColumn(start, t);
    }
    forall t | t in page ensures Find(store.rows, t) && t in Column(store.rows) {
      FindColumn(start, t);
      FindColumn(store.rows, t);
    }
    if Distinct(Column(start)) {
      CycleKeepsDistinct(start, page, outcome);
    }
  }

  /**
   Successive passes of the polling loop, one per fetched page, against one
   store; `outcome(c, k)` is the result of the k-th publish attempt of pass c.
   The table ends as `RunRows`: every pass appends one row per attempt,
   flagged with that attempt's outcome. Across all passes a text is attempted at most once, never when it was
   stored beforehand, and every text of every page ends up stored, whether its
   publication succeeded or not.
   */
  method Run(store: Store, pages: seq<seq<string>>, outcome: (nat, nat) -> bool) returns (attempted: seq<string>)
    modifies store
    ensures store.rows == RunRows(old(store.rows), pages, outcome)
    ensures attempted == RunAttempted(old(store.rows), pages, outcome)
    ensures Column(store.rows) == Column(old(store.rows)) + attempted
    ensures |store.rows| >= |old(store.rows)| && store.rows[..|old(store.rows)|] == old(store.rows)
    ensures forall t :: t in attempted ==> !old(store.Exists(t)) && exists c :: 0 <= c < |pages| && t in pages[c]
    ensures Distinct(attempted)
    ensures forall c, t :: 0 <= c < |pages| && t in pages[c] ==> store.Exists(t)
    ensures Distinct(Column(old(store.rows))) ==> Distinct(Column(store.rows))
  {
    ghost var start := store.rows;
    attempted := [];
    for k := 0 to |pages|
      invariant store.rows == RunRows(start, pages[..k], outcome)
      invariant attempted == RunAttempted(start, pages[..k], outcome)
    {
      RunStep(start, pages, outcome, k);
      var batch := Cycle(store, pages[k], PassOutcome(outcome, k));
      attempted := attempted + batch;
    }
    assert pages[..|pages|] == pages;
    RunAppends(start, pages, outcome);
    RunAttemptsOnce(start, pages, outcome);
    if Distinct(Column(start)) {
      RunKeepsDistinct(start, pages, outcome);
    }
    forall t ensures Find(start, t) <==> t in Column(start) {
      FindColumn(start, t);
    }
    forall t ensures Find(store.rows, t) <==> t in Column(store.rows) {
      FindColumn(store.rows, t);
    }
  }

  /**
   Two polls: an empty store and the page ["A", "B"] with both sends
   succeeding, then the page ["A", "C"]; only "C" is published the second time.
   */
  method TwoPolls()
  {
    var store := new Store();
    var first := Cycle(store, ["A", "B"], _ => true);
    assert first == ["A", "B"];
    assert store.rows == [Record("A", true), Record("B", true)];
    assert Column(store.rows) == ["A", "B"];
    var second := Cycle(store, ["A", "C"], _ => false);
    assert second == ["C"];
    assert store.rows == [Record("A", true), Record("B", true), Record("C", false)];
  }
}
