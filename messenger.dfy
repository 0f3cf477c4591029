/**
 * The two classes of the page script, `Message` and `Chat`, as classes
 * whose fields the methods update, each method proved to compute the
 * corresponding function of `ChatSpec`.
 */
module Messenger {
  import opened Wrappers
  import Command
  import opened Clock
  import opened Storage
  import opened ChatSpec
  import Uuid

  lemma AppendAssoc<T>(a: seq<T>, b: seq<T>, c: seq<T>)
    ensures a + (b + c) == (a + b) + c
  {
  }

  /**
   * A chat message. The fields that only `isNew` construction or `assign`
   * sets are `None` until then (`undefined` in the page).
   */
  class Message {
    var content: string
    var date: Option<Instant>
    var status: Option<bool>
    var own: bool
    var uuid: Option<string>
    var instructable: Command.Parsed

    /** The regex match is done once, on the content the message was built with. */
    ghost predicate Valid()
      reads this
    {
      instructable == Command.Parse(content)
    }

    /**
     * `new Message(content, isNew)`: `seed` is present exactly when `isNew`
     * is true and holds what the clock and the random generator return.
     */
    constructor (content: string, seed: Option<Seed>)
      ensures Valid() && this.content == content && own
      ensures seed.Some? ==>
        && date == Some(seed.value.now) && status == Some(false)
        && uuid == Some(Uuid.MessageId(seed.value.randomUuid))
      ensures seed.None? ==> date == None && status == None && uuid == None
    {
      this.content := content;
      if seed.Some? {
        date := Some(seed.value.now);
        uuid := Some(Uuid.MessageId(seed.value.randomUuid));
        status := Some(false);
      } else {
        date := None;
        uuid := None;
        status := None;
      }
      own := true;
      instructable := Command.Parse(content);
    }

    /** `isInstruction()`: whether the content matches `^\/(\w+)\s*(.*)$`. */
    predicate IsInstruction()
      reads this
      requires Valid()
      ensures IsInstruction() <==> Command.Matches(content)
    {
      Command.ParseMatches(content);
      instructable.Instruction?
    }

    /** `hasContent()`: an empty message is never an instruction. */
    predicate HasContent()
      reads this
      requires Valid()
      ensures HasContent() <==> |content| > 0
      ensures !HasContent() ==> !IsInstruction()
    {
      |content| > 0
    }

    /**
     * `handleCommand(chat)`: dispatch on the captured command name. Only
     * `username` reaches the chat; the three reserved names return nothing.
     */
    method HandleCommand(chat: Chat) returns (reply: Option<string>)
      requires Valid() && instructable.Instruction?
      modifies chat, chat.db
      ensures reply == Command.ReplyFor(instructable.command, instructable.args)
      ensures chat.State() ==
        if instructable.command == "username" then Configured(old(chat.State()), instructable.args)
        else old(chat.State())
      ensures chat.db.Valid() == old(chat.db.Valid())
    {
      var command := instructable.command;
      var args := instructable.args;
      if command == "username" {
        var r := chat.ConfigUser(args);
        reply := Some(r);
      } else if command == "auth" {
        reply := None;
      } else if command == "chat" {
        reply := None;
      } else if command == "empty" {
        reply := None;
      } else {
        reply := Some(Command.NotRecognized);
      }
    }

    /** Whether every column of the row `save` writes is set. */
    predicate Saveable()
      reads this
    {
      uuid.Some? && status.Some? && date.Some?
    }

    /** The row `save` writes. */
    function Row(): MessageRow
      reads this
      requires Saveable()
    {
      MessageRow(uuid.value, status.value, own, content, date.value)
    }

    /** `save(db)`: insert the row, without upsert. */
    method Save(db: Connection) returns (inserted: bool)
      requires Saveable()
      modifies db
      ensures inserted <==> !HasUuid(old(db.messages), Row().uuid)
      ensures db.messages == Inserted(old(db.messages), Row())
      ensures db.options == old(db.options)
    {
      inserted := db.InsertMessage(Row());
    }

    /**
     * `assign(row)`: take every column but the content from a stored row;
     * a message built from the row's content then saves that same row.
     */
    method Assign(row: MessageRow)
      modifies this
      ensures own == row.own && uuid == Some(row.uuid) && date == Some(row.instant) && status == Some(row.sent)
      ensures content == old(content) && instructable == old(instructable)
      ensures Saveable() && (content == row.content ==> Row() == row)
    {
      own := row.own;
      uuid := Some(row.uuid);
      date := Some(row.instant);
      status := Some(row.sent);
    }

    /** `setOwn(own)`: returns the value assigned. */
    method SetOwn(own: bool) returns (r: bool)
      modifies this
      ensures r == own && this.own == own
      ensures content == old(content) && date == old(date) && status == old(status)
      ensures uuid == old(uuid) && instructable == old(instructable)
    {
      this.own := own;
      r := own;
    }

    /** `getFormattedDate()`: two digits of the hour, a colon, two digits of the minute. */
    function FormattedDate(): (r: string)
      reads this
      requires date.Some?
      ensures |r| == 5 && r[2] == ':' && AllDigits(r[..2]) && AllDigits(r[3..])
      ensures ValueOf(r[..2]) == date.value.hours && ValueOf(r[3..]) == date.value.minutes
    {
      FormatTimeSpec(date.value.hours, date.value.minutes);
      FormatTime(date.value.hours, date.value.minutes)
    }
  }

  /** The page's chat: the store connection, the display name and the conversation view. */
  class Chat {
    const db: Connection
    var user: Option<string>
    var display: seq<Bubble>

    ghost predicate Valid()
      reads this, db
    {
      db.Valid()
    }

    /** The chat as a `ChatSpec.Session` value. */
    function State(): Session
      reads this, db
    {
      Session(user, db.options, db.messages, display)
    }

    /** `new Chat()`, given the connection to the `chat` database. */
    constructor (db: Connection)
      requires db.Valid()
      ensures this.db == db && user == None && display == []
      ensures Valid()
    {
      this.db := db;
      user := None;
      display := [];
    }

    /** `configUser(user)`: with a name, keep it and persist it; reply either way. */
    method ConfigUser(name: string) returns (reply: string)
      modifies this, db
      ensures reply == Command.ConfigUserReply(name)
      ensures State() == Configured(old(State()), name)
      ensures db.Valid() == old(db.Valid())
    {
      if name == "" {
        return Command.NameMissing;
      }
      user := Some(name);
      SaveUser();
      return Command.NameChanged;
    }

    /** `#saveUser()`: upsert the `user` row of the `option` table. */
    method SaveUser()
      requires user.Some?
      modifies db
      ensures db.options == old(db.options)["user" := user.value]
      ensures db.messages == old(db.messages)
    {
      db.UpsertOption(OptionRow("user", user.value));
    }

    /**
     * `#appendMessage(message, down)`: the new bubble goes below the others
     * when `down`, above them otherwise.
     */
    method AppendMessage(m: Message, down: bool)
      requires m.date.Some?
      modifies this
      ensures var b := BubbleOf(user, m.content, m.date.value, m.own);
        display == if down then old(display) + [b] else [b] + old(display)
      ensures user == old(user)
    {
      var time := m.FormattedDate();
      var b := Bubble(user, time, m.content, m.own);
      if down {
        display := display + [b];
      } else {
        display := [b] + display;
      }
    }

    /**
     * `handleMessage(form)`: `first` and `second` are what the clock and the
     * random generator return while the user's message and the reply are
     * built.
     */
    method HandleMessage(text: string, first: Seed, second: Seed) returns (outcome: Outcome)
      requires Valid()
      modifies this, db
      ensures Valid()
      ensures (State(), outcome) == Submit(old(State()), text, first, second)
    {
      ghost var s0 := State();
      var message := new Message(text, Some(first));
      if !message.HasContent() {
        return Rejected;
      }
      AppendMessage(message, true);
      var _ := message.Save(db);
      ghost var s1 := State();
      ghost var p := message.instructable;
      assert Submit(s0, text, first, second) == Respond(s1, p, second);
      if !message.IsInstruction() {
        assert Respond(s1, p, second) == (s1, Posted);
        return Posted;
      }
      Command.LookupUsername(p.command);
      var answer := message.HandleCommand(this);
      ghost var s2 := State();
      if answer.None? {
        assert Respond(s1, p, second) == (s2, TypeErrorThrown);
        return TypeErrorThrown;
      }
      message := new Message(answer.value, Some(second));
      var _ := message.SetOwn(false);
      AppendMessage(message, true);
      var _ := message.Save(db);
      assert State() == Posting(s2, answer.value, second, false);
      assert Respond(s1, p, second) == (State(), Replied(answer.value));
      return Replied(answer.value);
    }

    /** `#populateOptions()`: walk the `option` table; the `user` row sets the name. */
    method PopulateOptions()
      modifies this
      ensures user == if "user" in db.options then Some(db.options["user"]) else old(user)
      ensures display == old(display)
    {
      var rows := db.SelectOptions();
      for i := 0 to |rows|
        invariant user == RestoredUser(rows[..i], old(user))
        invariant display == old(display)
      {
        if rows[i].key == "user" {
          user := Some(rows[i].option);
        }
        assert rows[..i + 1][..i] == rows[..i];
      }
      assert rows[..|rows|] == rows;
      RestoredUserFromTable(rows, db.options, old(user));
    }

    /** `#populate()`: the six newest rows, each put on top of the view. */
    method Populate()
      modifies this
      ensures display == Stacked(Recent(db.messages, PageSize), user) + old(display)
      ensures user == old(user)
    {
      var rows := db.SelectRecentMessages(PageSize);
      for i := 0 to |rows|
        invariant display == Stacked(rows[..i], user) + old(display)
        invariant user == old(user)
      {
        var m := new Message(rows[i].content, None);
        m.Assign(rows[i]);
        assert BubbleOf(user, m.content, m.date.value, m.own) == RowBubble(rows[i], user);
        AppendMessage(m, false);
        StackedPrefix(rows, i, user);
        AppendAssoc([RowBubble(rows[i], user)], Stacked(rows[..i], user), old(display));
      }
      assert rows[..|rows|] == rows;
    }

    /** `initDatabase()` once the tables exist: options first, then the messages. */
    method InitDatabase()
      modifies this
      ensures State() == Restored(old(State()))
    {
      PopulateOptions();
      Populate();
    }
  }
}
