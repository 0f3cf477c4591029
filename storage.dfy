/**
 * An in-memory stand-in for the two JsStore tables of the `chat` database:
 * `option`, keyed by `key` and written by upsert, and `message`, keyed by
 * `uuid` and written by plain insert, which refuses a key already stored.
 * Calls complete synchronously.
 */
module Storage {
  import opened Clock

  /** A row of the `message` table. */
  datatype MessageRow = MessageRow(uuid: string, sent: bool, own: bool, content: string, instant: Instant)

  /** A row of the `option` table. */
  datatype OptionRow = OptionRow(key: string, option: string)

  predicate HasUuid(t: seq<MessageRow>, id: string) {
    exists i :: 0 <= i < |t| && t[i].uuid == id
  }

  /** The primary key of the `message` table holds. */
  predicate UniqueUuids(t: seq<MessageRow>) {
    forall i, j :: 0 <= i < j < |t| ==> t[i].uuid != t[j].uuid
  }

  /** The table after inserting `row` without `upsert`. */
  function Inserted(t: seq<MessageRow>, row: MessageRow): (r: seq<MessageRow>)
    ensures |t| <= |r| <= |t| + 1 && r[..|t|] == t
    ensures |r| == |t| + 1 <==> !HasUuid(t, row.uuid)
    ensures |r| == |t| + 1 ==> r[|t|] == row
    ensures HasUuid(r, row.uuid)
    ensures UniqueUuids(t) ==> UniqueUuids(r)
  {
    if HasUuid(t, row.uuid) then t else t + [row]
  }

  /** Rows in non-increasing order of their instants. */
  predicate Descending(r: seq<MessageRow>) {
    forall i, j :: 0 <= i < j < |r| ==> r[j].instant.stamp <= r[i].instant.stamp
  }

  /**
   * Puts `x` into the newest-first `s` in front of the first row that is
   * not newer than it, so that of two rows with equal instants the one
   * inserted later comes first.
   */
  function Insert(x: MessageRow, s: seq<MessageRow>): (r: seq<MessageRow>)
    ensures |r| == |s| + 1
  {
    if |s| == 0 || s[0].instant.stamp <= x.instant.stamp then [x] + s
    else [s[0]] + Insert(x, s[1..])
  }

  /**
   * The table in the order of `order: {by: "instant", type: "desc"}`;
   * rows with equal instants keep the order they were stored in.
   */
  function Newest(t: seq<MessageRow>): (r: seq<MessageRow>)
    ensures |r| == |t|
  {
    if |t| == 0 then [] else Insert(t[0], Newest(t[1..]))
  }

  /**
   * `select({from: "message", order: {by: "instant", type: "desc"}, limit})`:
   * the first `limit` rows of that order.
   */
  function Recent(t: seq<MessageRow>, limit: nat): seq<MessageRow> {
    var s := Newest(t);
    if limit < |s| then s[..limit] else s
  }

  function Min(a: int, b: int): int {
    if a < b then a else b
  }

  lemma {:induction false} InsertPermutes(x: MessageRow, s: seq<MessageRow>)
    ensures multiset(Insert(x, s)) == multiset{x} + multiset(s)
  {
    if |s| > 0 && s[0].instant.stamp > x.instant.stamp {
      InsertPermutes(x, s[1..]);
      assert s == [s[0]] + s[1..];
    }
  }

  /** Inserting keeps the rows newest first. */
  lemma {:induction false} InsertDescending(x: MessageRow, s: seq<MessageRow>)
    requires Descending(s)
    ensures Descending(Insert(x, s))
  {
    var r := Insert(x, s);
    if |s| > 0 && s[0].instant.stamp > x.instant.stamp {
      var r' := Insert(x, s[1..]);
      InsertDescending(x, s[1..]);
      InsertPermutes(x, s[1..]);
      forall i, j | 0 <= i < j < |r|
        ensures r[j].instant.stamp <= r[i].instant.stamp
      {
        if i == 0 {
          assert r[j] in multiset(r');
          assert r[j] == x || r[j] in s[1..];
        } else {
          assert r[i] == r'[i - 1] && r[j] == r'[j - 1];
        }
      }
    }
  }

  /** The ordered table holds the table's rows, as often as they are stored. */
  lemma {:induction false} NewestPermutes(t: seq<MessageRow>)
    ensures multiset(Newest(t)) == multiset(t)
  {
    if |t| > 0 {
      NewestPermutes(t[1..]);
      InsertPermutes(t[0], Newest(t[1..]));
      assert t == [t[0]] + t[1..];
    }
  }

  lemma {:induction false} NewestDescending(t: seq<MessageRow>)
    ensures Descending(Newest(t))
  {
    if |t| > 0 {
      NewestDescending(t[1..]);
      InsertDescending(t[0], Newest(t[1..]));
    }
  }

  /** The query returns `limit` rows, or all of them when fewer are stored. */
  lemma RecentLength(t: seq<MessageRow>, limit: nat)
    ensures |Recent(t, limit)| == Min(limit, |t|)
  {
  }

  /** Every row returned is a stored row, each at most as often as it is stored. */
  lemma RecentFromTable(t: seq<MessageRow>, limit: nat)
    ensures multiset(Recent(t, limit)) <= multiset(t)
  {
    var s := Newest(t);
    NewestPermutes(t);
    if limit < |s| {
      assert s == s[..limit] + s[limit..];
      assert multiset(s) == multiset(s[..limit]) + multiset(s[limit..]);
    }
  }

  /** The rows come newest first. */
  lemma RecentDescending(t: seq<MessageRow>, limit: nat)
    ensures Descending(Recent(t, limit))
  {
    NewestDescending(t);
  }

  /**
   * No stored row is newer than the oldest row returned and yet left out;
   * with fewer rows returned than the limit, every row is returned.
   */
  lemma RecentIsNewest(t: seq<MessageRow>, limit: nat)
    ensures var r := Recent(t, limit);
      && (forall j :: 0 <= j < |t| && |r| > 0 && r[|r| - 1].instant.stamp < t[j].instant.stamp ==> t[j] in r)
      && (|r| < limit ==> forall j :: 0 <= j < |t| ==> t[j] in r)
  {
    var s := Newest(t);
    var r := Recent(t, limit);
    NewestPermutes(t);
    NewestDescending(t);
    forall j | 0 <= j < |t|
      ensures t[j] in s
    {
      assert t[j] in multiset(t);
    }
    forall j | 0 <= j < |t| && |r| > 0 && r[|r| - 1].instant.stamp < t[j].instant.stamp
      ensures t[j] in r
    {
      var p :| 0 <= p < |s| && s[p] == t[j];
      assert s[|r| - 1] == r[|r| - 1];
      assert r[p] == t[j];
    }
  }

  /** A row saved with an instant later than every stored one is what a query for the latest row returns. */
  lemma LoadLatestSaved(t: seq<MessageRow>, row: MessageRow)
    requires !HasUuid(t, row.uuid)
    requires forall j :: 0 <= j < |t| ==> t[j].instant.stamp < row.instant.stamp
    ensures Recent(Inserted(t, row), 1) == [row]
  {
    var t' := Inserted(t, row);
    assert t' == t + [row];
    var s := Newest(t');
    NewestPermutes(t');
    NewestDescending(t');
    assert row in multiset(t');
    var p :| 0 <= p < |s| && s[p] == row;
    assert row.instant.stamp <= s[0].instant.stamp;
    assert s[0] in multiset(t) + multiset{row};
    assert forall y :: y in multiset(t) ==> y.instant.stamp < row.instant.stamp;
    assert s[0] == row;
    assert Recent(t', 1) == [s[0]];
  }

  /** `rows` lists every entry of `m` exactly once, in some order. */
  ghost predicate IsListing(rows: seq<OptionRow>, m: map<string, string>) {
    && (forall i :: 0 <= i < |rows| ==> rows[i].key in m && m[rows[i].key] == rows[i].option)
    && (forall k :: k in m ==> exists i :: 0 <= i < |rows| && rows[i].key == k)
    && (forall i, j :: 0 <= i < j < |rows| ==> rows[i].key != rows[j].key)
  }

  /** A connection to the `chat` database, holding its two tables. */
  class Connection {
    var options: map<string, string>
    var messages: seq<MessageRow>

    ghost predicate Valid()
      reads this
    {
      UniqueUuids(messages)
    }

    /** Opens a database whose tables hold the given rows. */
    constructor (options: map<string, string>, messages: seq<MessageRow>)
      requires UniqueUuids(messages)
      ensures Valid() && this.options == options && this.messages == messages
    {
      this.options := options;
      this.messages := messages;
    }

    /** `insert({into: "option", upsert: true, values: [row]})`. */
    method UpsertOption(row: OptionRow)
      modifies this
      ensures options == old(options)[row.key := row.option]
      ensures messages == old(messages)
    {
      options := options[row.key := row.option];
    }

    /** `insert({into: "message", values: [row]})`; `inserted` is false when the key was taken. */
    method InsertMessage(row: MessageRow) returns (inserted: bool)
      modifies this
      ensures inserted <==> !HasUuid(old(messages), row.uuid)
      ensures messages == Inserted(old(messages), row)
      ensures options == old(options)
    {
      inserted := !HasUuid(messages, row.uuid);
      messages := Inserted(messages, row);
    }

    /** `select({from: "option"})`: every row once, in an order the store chooses. */
    method SelectOptions() returns (rows: seq<OptionRow>)
      ensures IsListing(rows, options)
    {
      rows := [];
      var pending := options.Keys;
      while pending != {}
        invariant pending <= options.Keys
        invariant forall i :: 0 <= i < |rows| ==>
          rows[i].key in options && options[rows[i].key] == rows[i].option && rows[i].key !in pending
        invariant forall k :: k in options && k !in pending ==> exists i :: 0 <= i < |rows| && rows[i].key == k
        invariant forall i, j :: 0 <= i < j < |rows| ==> rows[i].key != rows[j].key
        decreases pending
      {
        var k :| k in pending;
        ghost var before := rows;
        rows := rows + [OptionRow(k, options[k])];
        forall k' | k' in options && k' !in pending - {k}
          ensures exists i :: 0 <= i < |rows| && rows[i].key == k'
        {
          if k' == k {
            assert rows[|rows| - 1].key == k';
          } else {
            var i :| 0 <= i < |before| && before[i].key == k';
            assert rows[i].key == k';
          }
        }
        pending := pending - {k};
      }
    }

    /** The descending, limited query of `Chat.#populate`. */
    method SelectRecentMessages(limit: nat) returns (rows: seq<MessageRow>)
      ensures rows == Recent(messages, limit)
    {
      rows := Recent(messages, limit);
    }
  }
}
