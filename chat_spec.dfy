/**
 * The chat session as a value: the display name, the two tables and the
 * conversation view, and what `Chat.handleMessage`, `Chat.configUser`,
 * `#populateOptions` and `#populate` make of it. The methods of
 * `Messenger.Chat` are proved to compute exactly these functions.
 */
module ChatSpec {
  import opened Wrappers
  import opened Command
  import opened Clock
  import opened Storage
  import Uuid

  /** What `crypto.randomUUID()` and `new Date()` return while a new message is built. */
  datatype Seed = Seed(randomUuid: string, now: Instant)

  /**
   * One element of the conversation view: the display name at the time it
   * was added, the `HH:MM` text, the message text, and whether it is the
   * user's own (drawn on the right, with the pending indicator).
   */
  datatype Bubble = Bubble(name: Option<string>, time: string, text: string, own: bool)

  /**
   * How `handleMessage` ends: empty input ignored, a plain message stored,
   * a command answered, or a `TypeError` thrown when the reply is
   * `undefined` and `new Message(undefined, true)` calls `match` on it.
   */
  datatype Outcome = Rejected | Posted | Replied(reply: string) | TypeErrorThrown

  datatype Session = Session(
    user: Option<string>,
    options: map<string, string>,
    messages: seq<MessageRow>,
    display: seq<Bubble>)

  /** The row `save` writes for a message built with `isNew`. */
  function FreshRow(content: string, seed: Seed, own: bool): MessageRow {
    MessageRow(Uuid.MessageId(seed.randomUuid), false, own, content, seed.now)
  }

  /** The bubble `#appendMessage` draws for a message with these fields. */
  function BubbleOf(name: Option<string>, content: string, instant: Instant, own: bool): Bubble {
    Bubble(name, FormatTime(instant.hours, instant.minutes), content, own)
  }

  /** A new message is appended to the view and then saved. */
  function Posting(s: Session, content: string, seed: Seed, own: bool): Session {
    s.(display := s.display + [BubbleOf(s.user, content, seed.now, own)],
       messages := Inserted(s.messages, FreshRow(content, seed, own)))
  }

  /** `configUser(name)`: an empty name changes nothing; otherwise it is kept and upserted. */
  function Configured(s: Session, name: string): Session {
    if name == "" then s else s.(user := Some(name), options := s.options["user" := name])
  }

  /**
   * The second half of `handleMessage`, once the user's message is shown
   * and saved: nothing more for plain text; for an instruction, run the
   * command and then show and save its reply.
   */
  function Respond(s: Session, p: Parsed, second: Seed): (Session, Outcome) {
    match p
    case Plain => (s, Posted)
    case Instruction(command, args) =>
      var s2 := if Lookup(command) == Username then Configured(s, args) else s;
      match ReplyFor(command, args)
      case None => (s2, TypeErrorThrown)
      case Some(reply) => (Posting(s2, reply, second, false), Replied(reply))
  }

  /** `handleMessage` on the text of the form, with the two generator readings it may use. */
  function Submit(s: Session, text: string, first: Seed, second: Seed): (Session, Outcome) {
    if text == "" then (s, Rejected)
    else Respond(Posting(s, text, first, true), Parse(text), second)
  }

  /** `#user` after `#populateOptions` has walked `rows`: the last `user` row wins. */
  function RestoredUser(rows: seq<OptionRow>, user: Option<string>): Option<string> {
    if rows == [] then user
    else if rows[|rows| - 1].key == "user" then Some(rows[|rows| - 1].option)
    else RestoredUser(rows[..|rows| - 1], user)
  }

  /** The bubble `#populate` draws for a stored row. */
  function RowBubble(row: MessageRow, name: Option<string>): Bubble {
    BubbleOf(name, row.content, row.instant, row.own)
  }

  /** The bubbles `#populate` puts on top of the view, each row inserted above the previous one. */
  function Stacked(rows: seq<MessageRow>, name: Option<string>): seq<Bubble> {
    if rows == [] then []
    else [RowBubble(rows[|rows| - 1], name)] + Stacked(rows[..|rows| - 1], name)
  }

  /** How many rows `#populate` asks for. */
  const PageSize: nat := 6

  /**
   * The session after start-up: `#populateOptions` restores the stored
   * name, then `#populate` puts the newest rows above the view.
   */
  function Restored(s: Session): Session {
    var user := if "user" in s.options then Some(s.options["user"]) else s.user;
    s.(user := user, display := Stacked(Recent(s.messages, PageSize), user) + s.display)
  }

  /** Every row of the message table has content and a 32-digit identifier. */
  ghost predicate WellFormed(rows: seq<MessageRow>) {
    forall i :: 0 <= i < |rows| ==> rows[i].content != "" && Uuid.IsMessageId(rows[i].uuid)
  }

  // ----- configUser -----

  lemma ConfiguredEmpty(s: Session)
    ensures Configured(s, "") == s
  {
  }

  /** Setting the same name twice leaves the state of setting it once. */
  lemma ConfiguredIdempotent(s: Session, name: string)
    ensures Configured(Configured(s, name), name) == Configured(s, name)
  {
  }

  /** `configUser` touches neither the message table nor the view. */
  lemma ConfiguredFrame(s: Session, name: string)
    ensures Configured(s, name).messages == s.messages && Configured(s, name).display == s.display
    ensures forall k :: k != "user" ==> (k in Configured(s, name).options <==> k in s.options)
    ensures forall k :: k != "user" && k in s.options ==> Configured(s, name).options[k] == s.options[k]
  {
  }

  // ----- #populateOptions -----

  lemma {:induction false} RestoredUserDistinct(rows: seq<OptionRow>, user: Option<string>)
    requires forall i, j :: 0 <= i < j < |rows| ==> rows[i].key != rows[j].key
    ensures (forall i :: 0 <= i < |rows| ==> rows[i].key != "user") ==> RestoredUser(rows, user) == user
    ensures forall i :: 0 <= i < |rows| && rows[i].key == "user" ==> RestoredUser(rows, user) == Some(rows[i].option)
  {
    if rows != [] {
      var init := rows[..|rows| - 1];
      RestoredUserDistinct(init, user);
      forall i | 0 <= i < |rows| - 1 ensures init[i] == rows[i] { }
    }
  }

  /** Whatever order the store lists the `option` table in, `#user` ends as its `user` entry. */
  lemma RestoredUserFromTable(rows: seq<OptionRow>, table: map<string, string>, user: Option<string>)
    requires IsListing(rows, table)
    ensures RestoredUser(rows, user) == if "user" in table then Some(table["user"]) else user
  {
    RestoredUserDistinct(rows, user);
    if "user" in table {
      var i :| 0 <= i < |rows| && rows[i].key == "user";
    }
  }

  /** A name set by `configUser` is the one a later start-up restores. */
  lemma ConfiguredIsRestored(s: Session, name: string, rows: seq<OptionRow>, user: Option<string>)
    requires name != "" && IsListing(rows, Configured(s, name).options)
    ensures RestoredUser(rows, user) == Some(name)
  {
    RestoredUserFromTable(rows, Configured(s, name).options, user);
  }

  // ----- #populate -----

  lemma {:induction false} StackedLength(rows: seq<MessageRow>, name: Option<string>)
    ensures |Stacked(rows, name)| == |rows|
  {
    if rows != [] {
      StackedLength(rows[..|rows| - 1], name);
    }
  }

  /** Taking one more row puts its bubble on top. */
  lemma StackedPrefix(rows: seq<MessageRow>, i: nat, name: Option<string>)
    requires i < |rows|
    ensures Stacked(rows[..i + 1], name) == [RowBubble(rows[i], name)] + Stacked(rows[..i], name)
  {
    assert rows[..i + 1][..i] == rows[..i];
  }

  /** Position `k` from the top shows the `k`-th row counted from the end. */
  lemma {:induction false} StackedAt(rows: seq<MessageRow>, name: Option<string>, k: nat)
    requires k < |rows|
    ensures k < |Stacked(rows, name)| && Stacked(rows, name)[k] == RowBubble(rows[|rows| - 1 - k], name)
  {
    var init := rows[..|rows| - 1];
    StackedLength(init, name);
    if k > 0 {
      StackedAt(init, name, k - 1);
    }
  }

  /**
   * `#populate` shows at most six rows, and prepending each row of the
   * newest-first result leaves them oldest first from the top: the bubble
   * at position `k` comes from a row no newer than the one at `k + 1`.
   */
  lemma PopulatedOldestFirst(t: seq<MessageRow>, name: Option<string>)
    ensures var r := Recent(t, PageSize);
      && |Stacked(r, name)| == |r| <= PageSize
      && (forall k :: 0 <= k < |r| ==> Stacked(r, name)[k] == RowBubble(r[|r| - 1 - k], name))
      && Descending(r)
  {
    var r := Recent(t, PageSize);
    RecentLength(t, 6);
    RecentDescending(t, 6);
    StackedLength(r, name);
    forall k | 0 <= k < |r| ensures Stacked(r, name)[k] == RowBubble(r[|r| - 1 - k], name) {
      StackedAt(r, name, k);
    }
  }

  // ----- handleMessage -----

  /** Empty text: nothing saved, nothing shown, nothing set. */
  lemma SubmitRejectsEmpty(s: Session, first: Seed, second: Seed)
    ensures Submit(s, "", first, second) == (s, Rejected)
  {
  }

  /** Which outcome a non-empty text has. */
  lemma SubmitOutcome(s: Session, text: string, first: Seed, second: Seed)
    requires text != ""
    ensures var o := Submit(s, text, first, second).1;
      && (o == Posted <==> Parse(text).Plain?)
      && (o.Replied? <==> Parse(text).Instruction? && ReplyFor(Parse(text).command, Parse(text).args).Some?)
      && (o.Replied? ==> Some(o.reply) == ReplyFor(Parse(text).command, Parse(text).args))
      && (o == TypeErrorThrown <==> Parse(text).Instruction? && Parse(text).command in {"auth", "chat", "empty"})
      && o != Rejected
  {
    var p := Parse(text);
    if p.Instruction? {
      ReplyForCases(p.command, p.args);
    }
  }

  /** The message table after `handleMessage`, in terms of the two inserts alone. */
  lemma SubmitMessages(s: Session, text: string, first: Seed, second: Seed)
    ensures var (s', o) := Submit(s, text, first, second);
      var t1 := Inserted(s.messages, FreshRow(text, first, true));
      s'.messages == if text == "" then s.messages
        else if o.Replied? then Inserted(t1, FreshRow(o.reply, second, false))
        else t1
  {
  }

  /** Two inserts keep the old rows in place and add at most the two rows. */
  lemma InsertedTwice(t: seq<MessageRow>, a: MessageRow, b: MessageRow)
    ensures var r := Inserted(Inserted(t, a), b);
      && |t| <= |r| <= |t| + 2
      && r[..|t|] == t
      && HasUuid(r, a.uuid)
      && forall i :: |t| <= i < |r| ==> r[i] == a || r[i] == b
  {
    var t1 := Inserted(t, a);
    var r := Inserted(t1, b);
    assert r[..|t|] == r[..|t1|][..|t|];
    HasUuidGrows(t1, r, a.uuid);
  }

  /**
   * The message table only grows: its old rows stay in place, the user's
   * message is the first row added, and a reply (never the user's own) is
   * the only other row that can be added, after it.
   */
  lemma SubmitAppendsOnly(s: Session, text: string, first: Seed, second: Seed)
    ensures var (s', o) := Submit(s, text, first, second);
      var mine := FreshRow(text, first, true);
      && |s.messages| <= |s'.messages| <= |s.messages| + 2
      && s'.messages[..|s.messages|] == s.messages
      && (text != "" ==> HasUuid(s'.messages, mine.uuid))
      && forall i :: |s.messages| <= i < |s'.messages| ==>
           s'.messages[i] == mine || (o.Replied? && s'.messages[i] == FreshRow(o.reply, second, false))
  {
    SubmitMessages(s, text, first, second);
    var (s', o) := Submit(s, text, first, second);
    var mine := FreshRow(text, first, true);
    if text != "" && o.Replied? {
      InsertedTwice(s.messages, mine, FreshRow(o.reply, second, false));
    }
  }

  lemma HasUuidGrows(t: seq<MessageRow>, t': seq<MessageRow>, id: string)
    requires |t| <= |t'| && t'[..|t|] == t && HasUuid(t, id)
    ensures HasUuid(t', id)
  {
    var i :| 0 <= i < |t| && t[i].uuid == id;
    assert t'[i] == t[i];
  }

  /**
   * With unused, distinct identifiers: a plain message adds exactly its
   * own row, and an answered command exactly its own row followed by the
   * reply's row.
   */
  lemma SubmitSavesInOrder(s: Session, text: string, first: Seed, second: Seed)
    requires text != ""
    requires var a, b := Uuid.MessageId(first.randomUuid), Uuid.MessageId(second.randomUuid);
      !HasUuid(s.messages, a) && !HasUuid(s.messages, b) && a != b
    ensures var (s', o) := Submit(s, text, first, second);
      s'.messages == s.messages + [FreshRow(text, first, true)]
        + (if o.Replied? then [FreshRow(o.reply, second, false)] else [])
  {
    SubmitMessages(s, text, first, second);
    var (s', o) := Submit(s, text, first, second);
    var mine := FreshRow(text, first, true);
    var t1 := Inserted(s.messages, mine);
    assert t1 == s.messages + [mine];
    if o.Replied? {
      var reply := FreshRow(o.reply, second, false);
      assert !HasUuid(t1, reply.uuid) by {
        forall i | 0 <= i < |t1| ensures t1[i].uuid != reply.uuid {
          if i < |s.messages| {
            assert t1[i] == s.messages[i];
          }
        }
      }
      assert Inserted(t1, reply) == t1 + [reply];
    }
  }

  /** The last one or two bubbles are the new message and then its reply. */
  lemma SubmitShows(s: Session, text: string, first: Seed, second: Seed)
    requires text != ""
    ensures var (s', o) := Submit(s, text, first, second);
      && s'.display[..|s.display| + 1] == s.display + [BubbleOf(s.user, text, first.now, true)]
      && s'.display == s.display + [BubbleOf(s.user, text, first.now, true)]
           + (if o.Replied? then [BubbleOf(s'.user, o.reply, second.now, false)] else [])
  {
  }

  /** Only `/username` with a name changes the display name or the `option` table. */
  lemma SubmitSetsName(s: Session, text: string, first: Seed, second: Seed)
    ensures var s' := Submit(s, text, first, second).0;
      if text != "" && Parse(text).Instruction? && Parse(text).command == "username" && Parse(text).args != "" then
        s'.user == Some(Parse(text).args) && s'.options == s.options["user" := Parse(text).args]
      else
        s'.user == s.user && s'.options == s.options
  {
    if text != "" && Parse(text).Instruction? {
      var p := Parse(text);
      var s1 := Posting(s, text, first, true);
      ReplyForCases(p.command, p.args);
      if Lookup(p.command) == Username {
        assert Submit(s, text, first, second).0.user == Configured(s1, p.args).user;
      }
    }
  }

  /** The store's key constraint and the shape of every stored row survive `handleMessage`. */
  lemma SubmitKeepsTableValid(s: Session, text: string, first: Seed, second: Seed)
    requires Uuid.IsCanonical(first.randomUuid) && Uuid.IsCanonical(second.randomUuid)
    ensures var s' := Submit(s, text, first, second).0;
      && (UniqueUuids(s.messages) ==> UniqueUuids(s'.messages))
      && (WellFormed(s.messages) ==> WellFormed(s'.messages))
  {
    var (s', o) := Submit(s, text, first, second);
    if text != "" {
      Uuid.MessageIdFormat(first.randomUuid);
      Uuid.MessageIdFormat(second.randomUuid);
      SubmitAppendsOnly(s, text, first, second);
      if o.Replied? {
        RepliesArePlain(Parse(text).command, Parse(text).args);
      }
      if WellFormed(s.messages) {
        forall i | 0 <= i < |s'.messages|
          ensures s'.messages[i].content != "" && Uuid.IsMessageId(s'.messages[i].uuid)
        {
          if i < |s.messages| {
            assert s'.messages[i] == s.messages[i];
          }
        }
      }
    }
  }

  /** `/username Alice` answers "Nombre cambiado." and stores the name. */
  lemma SubmitUsernameAlice(s: Session, first: Seed, second: Seed)
    ensures var (s', o) := Submit(s, "/username Alice", first, second);
      && o == Replied(NameChanged)
      && s'.user == Some("Alice") && s'.options == s.options["user" := "Alice"]
  {
    ExampleUsername();
  }

  /** `/username ` answers "Nombre no insertado." and leaves the name and the table as they were. */
  lemma SubmitUsernameEmpty(s: Session, first: Seed, second: Seed)
    ensures var (s', o) := Submit(s, "/username ", first, second);
      && o == Replied(NameMissing)
      && s'.user == s.user && s'.options == s.options
  {
    assert "/username " == "/" + "username" + " " + "";
    ParseComposed("username", " ", "");
  }

  /** `/bogus` answers "Instrucción no reconocida." */
  lemma SubmitUnknownCommand(s: Session, first: Seed, second: Seed)
    ensures Submit(s, "/bogus", first, second).1 == Replied(NotRecognized)
  {
    assert Parse("/bogus") == Instruction("bogus", "") by {
      assert "/bogus" == "/" + "bogus" + "" + "";
      ParseComposed("bogus", "", "");
    }
    ReplyForCases("bogus", "");
  }
}
