/**
 The record store of the VK-to-Telegram forwarder: the `posts` table, one row per
 post whose publication was attempted, holding the post text and whether the
 Telegram send succeeded. Rows are only ever appended; lookups compare texts
 exactly. The autoincrement `id` column is represented by a row's position.
 */
module Records {

  /** One row of the `posts` table: `post_text` and `published_in_telegram`. */
  datatype Record = Record(text: string, published: bool)

  /** The `post_text` column, in row order. */
  function Column(rows: seq<Record>): (col: seq<string>)
  {
    seq(|rows|, i requires 0 <= i < |rows| => rows[i].text)
  }

  /** No text occurs twice. */
  ghost predicate Distinct(texts: seq<string>)
  {
    forall i, j :: 0 <= i < j < |texts| ==> texts[i] != texts[j]
  }

  /** Two repetition-free sequences with no text in common concatenate to one. */
  lemma DistinctConcat(a: seq<string>, b: seq<string>)
    requires Distinct(a) && Distinct(b)
    requires forall t :: t in b ==> t !in a
    ensures Distinct(a + b)
  {
    var ab := a + b;
    forall i, j | 0 <= i < j < |ab| ensures ab[i] != ab[j] {
      if i < |a| <= j {
        assert ab[j] == b[j - |a|] && ab[i] == a[i];
        assert b[j - |a|] in b;
      } else if |a| <= i {
        assert ab[i] == b[i - |a|] && ab[j] == b[j - |a|];
      }
    }
  }

  /**
   `SELECT * FROM posts WHERE post_text = ?` followed by `fetchone() is not None`:
   a full scan of the table that succeeds on the first row whose text equals
   `t` exactly (no trimming, no case folding).
   */
  function Find(rows: seq<Record>, t: string): (found: bool)
    ensures found <==> exists i :: 0 <= i < |rows| && rows[i].text == t
  {
    if rows == [] then false
    else if rows[0].text == t then true
    else
      var rest := Find(rows[1..], t);
      assert forall i :: 1 <= i < |rows| ==> rows[i] == rows[1..][i - 1];
      rest
  }

  /** `t` is a stored text exactly when it occurs in the `post_text` column. */
  lemma FindColumn(rows: seq<Record>, t: string)
    ensures Find(rows, t) <==> t in Column(rows)
  {
    if t in Column(rows) {
      var i :| 0 <= i < |rows| && Column(rows)[i] == t;
      assert rows[i].text == t;
    }
    if Find(rows, t) {
      var i :| 0 <= i < |rows| && rows[i].text == t;
      assert Column(rows)[i] == t;
    }
  }

  /** Appending a row makes its text found and changes nothing about any other text. */
  lemma FindAppend(rows: seq<Record>, r: Record, t: string)
    ensures Find(rows + [r], t) <==> Find(rows, t) || r.text == t
  {
    var grown := rows + [r];
    if r.text == t {
      assert grown[|rows|].text == t;
    }
    if Find(rows, t) {
      var i :| 0 <= i < |rows| && rows[i].text == t;
      assert grown[i].text == t;
    }
    if Find(grown, t) && r.text != t {
      var i :| 0 <= i < |grown| && grown[i].text == t;
      assert i < |rows| && rows[i].text == t;
    }
  }

  /** The column of a table grows by the text of the row appended to it. */
  lemma ColumnAppend(rows: seq<Record>, more: seq<Record>)
    ensures Column(rows + more) == Column(rows) + Column(more)
  {
  }

  /** The `posts` table of one process: opened once, appended to, never rewritten. */
  class Store {
    var rows: seq<Record>

    /** `CREATE TABLE IF NOT EXISTS posts` on a fresh database file. */
    constructor ()
      ensures rows == []
    {
      rows := [];
    }

    /** `post_exists(post_text)`: some stored row has exactly this text. */
    function Exists(t: string): (found: bool)
      reads this
      ensures found <==> exists i :: 0 <= i < |rows| && rows[i].text == t
    {
      Find(rows, t)
    }

    /**
     `save_post_to_db(post_text, published)`: `INSERT` appends exactly one row and
     leaves every earlier row as it was; the text is found straight afterwards.
     The schema has no uniqueness constraint, so saving a text already stored is
     allowed and adds a second row.
     */
    method Save(text: string, published: bool)
      modifies this
      ensures rows == old(rows) + [Record(text, published)]
      ensures Exists(text)
      ensures forall t :: Exists(t) <==> old(Exists(t)) || t == text
    {
      forall t ensures Find(rows + [Record(text, published)], t) <==> Find(rows, t) || t == text {
        FindAppend(rows, Record(text, published), t);
      }
      rows := rows + [Record(text, published)];
    }
  }
}
