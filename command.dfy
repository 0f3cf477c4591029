/**
 * Classification of a message's content by the regular expression
 * `^\/(\w+)\s*(.*)$` (no flags), and the dispatch of the resulting
 * command name over the closed table of `Message.handleCommand`.
 */
module Command {
  import opened Wrappers

  /** `\w` of a JavaScript regular expression without the `u` flag. */
  predicate IsWordChar(c: char) {
    ('A' <= c <= 'Z') || ('a' <= c <= 'z') || ('0' <= c <= '9') || c == '_'
  }

  /** ECMAScript LineTerminator: the characters that `.` does not match. */
  predicate IsLineTerminator(c: char) {
    c == '\n' || c == '\r' || c == '\U{2028}' || c == '\U{2029}'
  }

  /**
   * `\s`: ECMAScript WhiteSpace (tab, vertical tab, form feed, the byte
   * order mark and the `Zs` space separators) together with LineTerminator.
   */
  predicate IsSpace(c: char) {
    || c == '\t' || c == '\U{000B}' || c == '\U{000C}' || c == ' '
    || c == '\U{00A0}' || c == '\U{1680}' || ('\U{2000}' <= c <= '\U{200A}')
    || c == '\U{202F}' || c == '\U{205F}' || c == '\U{3000}' || c == '\U{FEFF}'
    || IsLineTerminator(c)
  }

  predicate AllWord(s: string) {
    forall i :: 0 <= i < |s| ==> IsWordChar(s[i])
  }

  predicate AllSpace(s: string) {
    forall i :: 0 <= i < |s| ==> IsSpace(s[i])
  }

  /** What `.*` followed by `$` can consume: text without a line terminator. */
  predicate OnOneLine(s: string) {
    forall i :: 0 <= i < |s| ==> !IsLineTerminator(s[i])
  }

  /** End of the longest run of word characters of `s` that starts at `i`. */
  function WordEnd(s: string, i: nat): (e: nat)
    requires i <= |s|
    ensures i <= e <= |s|
    ensures forall m :: i <= m < e ==> IsWordChar(s[m])
    ensures e < |s| ==> !IsWordChar(s[e])
    decreases |s| - i
  {
    if i == |s| || !IsWordChar(s[i]) then i else WordEnd(s, i + 1)
  }

  /** End of the longest run of `\s` characters of `s` that starts at `i`. */
  function SpaceEnd(s: string, i: nat): (e: nat)
    requires i <= |s|
    ensures i <= e <= |s|
    ensures forall m :: i <= m < e ==> IsSpace(s[m])
    ensures e < |s| ==> !IsSpace(s[e])
    decreases |s| - i
  {
    if i == |s| || !IsSpace(s[i]) then i else SpaceEnd(s, i + 1)
  }

  /** The contract of `WordEnd` determines it. */
  lemma {:induction false} WordEndIs(s: string, i: nat, e: nat)
    requires i <= e <= |s|
    requires forall m :: i <= m < e ==> IsWordChar(s[m])
    requires e < |s| ==> !IsWordChar(s[e])
    ensures WordEnd(s, i) == e
    decreases e - i
  {
    if i < e {
      WordEndIs(s, i + 1, e);
    }
  }

  /** The contract of `SpaceEnd` determines it. */
  lemma {:induction false} SpaceEndIs(s: string, i: nat, e: nat)
    requires i <= e <= |s|
    requires forall m :: i <= m < e ==> IsSpace(s[m])
    requires e < |s| ==> !IsSpace(s[e])
    ensures SpaceEnd(s, i) == e
    decreases e - i
  {
    if i < e {
      SpaceEndIs(s, i + 1, e);
    }
  }

  /** No line terminator at or after position `i`. */
  predicate OnOneLineFrom(s: string, i: nat) {
    forall m :: i <= m < |s| ==> !IsLineTerminator(s[m])
  }

  /** The match of line 202: `null` (Plain) or the two capture groups. */
  datatype Parsed = Plain | Instruction(command: string, args: string)

  /**
   * The match greedy backtracking finds first: the command is the longest
   * run of word characters after the slash, the arguments are what follows
   * the longest run of whitespace after it, and the match fails when those
   * arguments hold a line terminator.
   */
  function Parse(content: string): Parsed {
    if |content| == 0 || content[0] != '/' then Plain
    else
      var c := WordEnd(content, 1);
      var a := SpaceEnd(content, c);
      if c == 1 || !OnOneLineFrom(content, a) then Plain
      else Instruction(content[1..c], content[a..])
  }

  /**
   * Reference semantics of the pattern: `/`, then `\w+` taking the next
   * `k` characters, `\s*` taking the `j` after those, and `.*$` the rest.
   */
  ghost predicate MatchesWith(content: string, k: nat, j: nat) {
    && 1 + k + j <= |content|
    && content[0] == '/'
    && 1 <= k
    && (forall m :: 1 <= m < 1 + k ==> IsWordChar(content[m]))
    && (forall m :: 1 + k <= m < 1 + k + j ==> IsSpace(content[m]))
    && (forall m :: 1 + k + j <= m < |content| ==> !IsLineTerminator(content[m]))
  }

  /** The pattern matches `content` at all, by some split. */
  ghost predicate Matches(content: string) {
    exists k: nat, j: nat :: MatchesWith(content, k, j)
  }

  lemma WordIsNotSpace(c: char)
    ensures IsWordChar(c) ==> !IsSpace(c)
  {
  }

  /** Number of whitespace characters between the command and the arguments of a match. */
  function Gap(content: string, p: Parsed): int
    requires p.Instruction?
  {
    |content| - 1 - |p.command| - |p.args|
  }

  /** An instruction is a match of the pattern, split as "/" + command + whitespace + args. */
  lemma ParseSound(content: string)
    requires Parse(content).Instruction?
    ensures var p := Parse(content);
      && |content| == 1 + |p.command| + Gap(content, p) + |p.args|
      && p.command == content[1..1 + |p.command|]
      && p.args == content[|content| - |p.args|..]
      && MatchesWith(content, |p.command|, Gap(content, p))
  {
  }

  /**
   * Every split the pattern admits yields an instruction, and the one
   * `Parse` reports is the greatest of them: a longer command wins, and for
   * the same command a longer whitespace run wins. This is the split that
   * greedy backtracking tries first.
   */
  lemma ParseGreedy(content: string, k: nat, j: nat)
    requires MatchesWith(content, k, j)
    ensures var p := Parse(content);
      && p.Instruction?
      && k <= |p.command|
      && (k == |p.command| ==> j <= Gap(content, p))
  {
    var c := WordEnd(content, 1);
    if c < 1 + k {
      assert false;
    }
    var a := SpaceEnd(content, c);
    if c > 1 + k && j > 0 {
      assert IsWordChar(content[1 + k]) && IsSpace(content[1 + k]);
      WordIsNotSpace(content[1 + k]);
      assert false;
    }
    if c == 1 + k && a < 1 + k + j {
      assert false;
    }
    assert 1 + k + j <= a;
  }

  /** `isInstruction()` holds exactly when the pattern matches. */
  lemma ParseMatches(content: string)
    ensures Parse(content).Instruction? <==> Matches(content)
  {
    if Parse(content).Instruction? {
      ParseSound(content);
      var p := Parse(content);
      assert MatchesWith(content, |p.command|, Gap(content, p));
    }
    if Matches(content) {
      var k: nat, j: nat :| MatchesWith(content, k, j);
      ParseGreedy(content, k, j);
    }
  }

  /**
   * The converse of `ParseSound`: a slash, a maximal word run, a maximal
   * whitespace run and a one-line rest parse back into that command and
   * those arguments.
   */
  lemma ParseComposed(command: string, spaces: string, args: string)
    requires |command| >= 1 && AllWord(command) && AllSpace(spaces) && OnOneLine(args)
    requires spaces + args == [] || !IsWordChar((spaces + args)[0])
    requires args == [] || !IsSpace(args[0])
    ensures Parse("/" + command + spaces + args) == Instruction(command, args)
  {
    var content := "/" + command + spaces + args;
    var c := 1 + |command|;
    var a := c + |spaces|;
    assert content[1..c] == command;
    assert content[c..a] == spaces;
    assert content[a..] == args;
    forall m | 1 <= m < c ensures IsWordChar(content[m]) {
      assert content[m] == content[1..c][m - 1];
    }
    if c < |content| {
      assert content[c] == content[c..][0] == (spaces + args)[0];
    }
    WordEndIs(content, 1, c);
    forall m | c <= m < a ensures IsSpace(content[m]) {
      assert content[m] == content[c..a][m - c];
    }
    if a < |content| {
      assert content[a] == content[a..][0];
    }
    SpaceEndIs(content, c, a);
    forall m | a <= m < |content| ensures !IsLineTerminator(content[m]) {
      assert content[m] == content[a..][m - a];
    }
  }

  /** Instances of the classification. */
  lemma ExampleUsername()
    ensures Parse("/username Alice") == Instruction("username", "Alice")
  {
    assert "/username Alice" == "/" + "username" + " " + "Alice";
    ParseComposed("username", " ", "Alice");
  }

  lemma ExampleHyphen()
    ensures Parse("/foo-bar") == Instruction("foo", "-bar")
  {
    assert "/foo-bar" == "/" + "foo" + "" + "-bar";
    ParseComposed("foo", "", "-bar");
  }

  lemma ExampleSlashAlone()
    ensures Parse("/") == Plain
  {
  }

  lemma ExampleSecondLine()
    ensures Parse("/a b\nc") == Plain
  {
    var content := "/a b\nc";
    WordEndIs(content, 1, 2);
    SpaceEndIs(content, 2, 3);
    assert IsLineTerminator(content[4]);
  }

  lemma ExampleBlankLines()
    ensures Parse("/a \n b") == Instruction("a", "b")
  {
    assert "/a \n b" == "/" + "a" + " \n " + "b";
    ParseComposed("a", " \n ", "b");
  }

  /** The closed set of command names of the dispatch `switch`. */
  datatype CommandName = Username | Auth | Chat | Empty | Other

  function Lookup(command: string): CommandName {
    if command == "username" then Username
    else if command == "auth" then Auth
    else if command == "chat" then Chat
    else if command == "empty" then Empty
    else Other
  }

  const NameMissing: string := "Nombre no insertado."
  const NameChanged: string := "Nombre cambiado."
  const NotRecognized: string := "Instrucción no reconocida."

  /** The string `Chat.configUser` returns for the given name. */
  function ConfigUserReply(name: string): string {
    if name == "" then NameMissing else NameChanged
  }

  /**
   * What `handleCommand` returns: `configUser(args)`'s reply for
   * `username`, nothing (`undefined`) for the three reserved names, and the
   * fixed "not recognized" text for any other name.
   */
  function ReplyFor(command: string, args: string): Option<string> {
    match Lookup(command)
    case Username => Some(ConfigUserReply(args))
    case Auth => None
    case Chat => None
    case Empty => None
    case Other => Some(NotRecognized)
  }

  lemma LookupUsername(command: string)
    ensures Lookup(command) == Username <==> command == "username"
  {
  }

  lemma ReplyForCases(command: string, args: string)
    ensures ReplyFor(command, args) == None <==> command in {"auth", "chat", "empty"}
    ensures ReplyFor(command, args) == Some(NotRecognized)
      <==> command !in {"username", "auth", "chat", "empty"}
    ensures command == "username" ==> ReplyFor(command, args) == Some(ConfigUserReply(args))
    ensures command == "username" && args == "" ==> ReplyFor(command, args) == Some(NameMissing)
  {
  }

  /** A reply is never empty and never itself an instruction. */
  lemma RepliesArePlain(command: string, args: string)
    requires ReplyFor(command, args).Some?
    ensures var r := ReplyFor(command, args).value; r != "" && Parse(r) == Plain
  {
    assert NameMissing[0] == 'N' && NameChanged[0] == 'N' && NotRecognized[0] == 'I';
  }
}
