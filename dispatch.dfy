/**
 * Which handler of tobacco.py receives an event.  Message handlers are tried
 * in registration order (tobacco.py:65-80), callback handlers likewise
 * (tobacco.py:98, 113).  None of them names an FSM state, and a handler
 * registered without one only fires for a user who has no state; so once
 * a user's state is set nothing answers them.
 */
module Dispatch {
  import opened Tokens
  import opened Replies

  datatype MessageHandler =
    | StartCmd       // start_cmd, tobacco.py:65-67
    | AddTobacco     // add_tobacco, tobacco.py:70-73
    | SearchTobacco  // search_tobacco, tobacco.py:76-78
    | ProcessSearch  // process_search, tobacco.py:80-96
    | NoHandler

  /** The whitespace that separates words (space and the ASCII controls tab to carriage return). */
  predicate IsSpace(c: char) {
    c == ' ' || '\t' <= c <= '\r'
  }

  function TrimStart(s: string): (r: string)
    ensures r == [] || !IsSpace(r[0])
    ensures |r| <= |s| && r == s[|s| - |r|..]
    ensures forall i :: 0 <= i < |s| - |r| ==> IsSpace(s[i])
  {
    if s != [] && IsSpace(s[0]) then TrimStart(s[1..]) else s
  }

  function TakeWord(s: string): (w: string)
    ensures w <= s
    ensures forall i :: 0 <= i < |w| ==> !IsSpace(w[i])
    ensures |w| < |s| ==> IsSpace(s[|w|])
  {
    if s == [] || IsSpace(s[0]) then [] else [s[0]] + TakeWord(s[1..])
  }

  /** `text.split()[0]` for a text that is not blank. */
  function FirstWord(text: string): string {
    TakeWord(TrimStart(text))
  }

  /** Folds ASCII capitals to lower case and leaves every other character as it is. */
  function AsciiLower(s: string): (r: string)
    ensures |r| == |s|
  {
    if s == [] then []
    else [if 'A' <= s[0] <= 'Z' then (s[0] as int + 32) as char else s[0]] + AsciiLower(s[1..])
  }

  /**
   * What folding does to each character: capitals become their lower-case
   * letter, everything else is kept, and no capital is left.
   */
  lemma {:induction false} AsciiLowerFolds(s: string)
    ensures |AsciiLower(s)| == |s|
    ensures forall i :: 0 <= i < |s| ==> !('A' <= AsciiLower(s)[i] <= 'Z')
    ensures forall i :: 0 <= i < |s| && !('A' <= s[i] <= 'Z') ==> AsciiLower(s)[i] == s[i]
    ensures forall i :: 0 <= i < |s| && 'A' <= s[i] <= 'Z' ==> AsciiLower(s)[i] as int == s[i] as int + 32
  {
    if s != [] {
      AsciiLowerFolds(s[1..]);
      assert forall i :: 1 <= i < |s| ==> AsciiLower(s)[i] == AsciiLower(s[1..])[i - 1];
    }
  }

  /**
   * The `commands=['start']` filter: the first word is `/` followed by the
   * command, compared case-insensitively, and an `@mention` after it must
   * name this bot.
   */
  predicate IsStartCommand(text: string, botName: string)
    ensures IsStartCommand(text, botName) ==> '/' in text
  {
    assert |FirstWord(text)| > 0 ==> FirstWord(text)[0] == TrimStart(text)[0];
    var word := FirstWord(text);
    && |word| > 0 && word[0] == '/'
    && var parts := SplitOnce(word[1..], '@');
       && AsciiLower(parts[0]) == "start"
       && (|parts| == 1 || parts[1] == [] || AsciiLower(parts[1]) == AsciiLower(botName))
  }

  /** A non-empty text made only of whitespace, on which `split()[0]` raises IndexError. */
  predicate IsBlank(text: string) {
    text != [] && TrimStart(text) == []
  }

  /**
   * The handler a text message from a user reaches; `idle` says that the user
   * has no FSM state.  The command filter runs first, and on a blank text it
   * raises, so the update reaches no handler.
   */
  function MessageHandlerFor(idle: bool, text: string, botName: string): (h: MessageHandler)
    ensures h == NoHandler <==> !idle || IsBlank(text)
    ensures h == AddTobacco <==> idle && text == AddMenuText
    ensures h == SearchTobacco <==> idle && text == SearchMenuText
    ensures h == StartCmd <==> idle && !IsBlank(text) && IsStartCommand(text, botName)
    ensures h == ProcessSearch <==>
      idle && !IsBlank(text) && !IsStartCommand(text, botName) && text != AddMenuText && text != SearchMenuText
  {
    NotBlank(AddMenuText);
    NotBlank(SearchMenuText);
    NotCommand(AddMenuText, botName);
    NotCommand(SearchMenuText, botName);
    if !idle then NoHandler
    else if IsBlank(text) then NoHandler
    else if IsStartCommand(text, botName) then StartCmd
    else if text == AddMenuText then AddTobacco
    else if text == SearchMenuText then SearchTobacco
    else ProcessSearch
  }

  /** The callback handler a button tap reaches. */
  function CallbackRouteFor(idle: bool, token: string): (r: Route)
    ensures r != Unrouted ==> idle
    ensures idle ==> r == RouteOf(token)
  {
    if !idle then Unrouted else RouteOf(token)
  }

  /** A text that starts with a non-space character is not blank. */
  lemma NotBlank(text: string)
    requires |text| > 0 && !IsSpace(text[0])
    ensures !IsBlank(text)
  {
  }

  /** A blank text from an idle user gets no handler and no reply. */
  lemma {:induction false} BlankTextUnanswered(text: string, botName: string)
    requires |text| > 0 && forall i :: 0 <= i < |text| ==> IsSpace(text[i])
    ensures MessageHandlerFor(true, text, botName) == NoHandler
  {
    if |text| > 1 {
      BlankTextUnanswered(text[1..], botName);
    }
  }

  /** A text whose first character is neither `/` nor a space is never a command. */
  lemma {:induction false} NotCommand(text: string, botName: string)
    requires |text| > 0 && text[0] != '/' && !IsSpace(text[0])
    ensures !IsStartCommand(text, botName)
  {
    assert TrimStart(text) == text;
    assert FirstWord(text)[0] == text[0];
  }

  /**
   * No menu text is a command, so the first three handlers never compete
   * and their registration order does not matter; the edit and delete menu
   * texts, which have no handler of their own, are taken as search queries.
   */
  lemma MenuDispatch(botName: string)
    ensures MessageHandlerFor(true, AddMenuText, botName) == AddTobacco
    ensures MessageHandlerFor(true, SearchMenuText, botName) == SearchTobacco
    ensures MessageHandlerFor(true, EditMenuText, botName) == ProcessSearch
    ensures MessageHandlerFor(true, DeleteMenuText, botName) == ProcessSearch
  {
    NotCommand(AddMenuText, botName);
    NotCommand(SearchMenuText, botName);
    NotCommand(EditMenuText, botName);
    NotCommand(DeleteMenuText, botName);
  }

  /** The first word of a text that starts with a word is that word. */
  lemma {:induction false} FirstWordOf(word: string, rest: string)
    requires |word| > 0 && forall i :: 0 <= i < |word| ==> !IsSpace(word[i])
    requires rest == [] || IsSpace(rest[0])
    ensures FirstWord(word + rest) == word
  {
    assert TrimStart(word + rest) == word + rest;
    TakeWordOf(word, rest);
  }

  lemma {:induction false} TakeWordOf(word: string, rest: string)
    requires forall i :: 0 <= i < |word| ==> !IsSpace(word[i])
    requires rest == [] || IsSpace(rest[0])
    ensures TakeWord(word + rest) == word
  {
    if word == [] {
      assert word + rest == rest;
    } else {
      assert (word + rest)[1..] == word[1..] + rest;
      TakeWordOf(word[1..], rest);
    }
  }

  /** A first word `/` + `command` with a command that folds to `start` is the start command. */
  lemma {:induction false} StartWord(text: string, botName: string, command: string, rest: string)
    requires text == ['/'] + command + rest && |command| > 0 && '@' !in command
    requires forall i :: 0 <= i < |command| ==> !IsSpace(command[i])
    requires rest == [] || IsSpace(rest[0])
    requires AsciiLower(command) == "start"
    ensures MessageHandlerFor(true, text, botName) == StartCmd
  {
    StartWordIsCommand(text, botName, command, rest);
  }

  lemma {:induction false} StartWordIsCommand(text: string, botName: string, command: string, rest: string)
    requires text == ['/'] + command + rest && |command| > 0 && '@' !in command
    requires forall i :: 0 <= i < |command| ==> !IsSpace(command[i])
    requires rest == [] || IsSpace(rest[0])
    requires AsciiLower(command) == "start"
    ensures !IsBlank(text) && IsStartCommand(text, botName)
  {
    assert text == (['/'] + command) + rest;
    NotBlank(text);
    FirstWordOf(['/'] + command, rest);
    assert (['/'] + command)[1..] == command;
  }

  lemma StartFolds()
    ensures AsciiLower("start") == "start"
    ensures AsciiLower("START") == "start"
  {
    assert AsciiLower("start") == ['s'] + AsciiLower("tart");
    assert AsciiLower("START") == ['s'] + AsciiLower("TART");
    assert AsciiLower("TART") == ['t'] + AsciiLower("ART");
    assert AsciiLower("ART") == ['a'] + AsciiLower("RT");
  }

  /** `/start` reaches the greeting, however it is capitalised and whatever follows it. */
  lemma StartDispatch(botName: string, rest: string)
    requires rest == [] || IsSpace(rest[0])
    ensures MessageHandlerFor(true, "/start" + rest, botName) == StartCmd
    ensures MessageHandlerFor(true, "/START" + rest, botName) == StartCmd
  {
    StartFolds();
    StartSpelling("start");
    StartSpelling("START");
    assert "/start" + rest == ['/'] + "start" + rest;
    StartWord("/start" + rest, botName, "start", rest);
    assert "/START" + rest == ['/'] + "START" + rest;
    StartWord("/START" + rest, botName, "START", rest);
  }

  lemma StartSpelling(command: string)
    requires command == "start" || command == "START"
    ensures |command| > 0 && '@' !in command
    ensures forall i :: 0 <= i < |command| ==> !IsSpace(command[i])
  {
    assert command[0] != '@' && command[1] != '@' && command[2] != '@' && command[3] != '@' && command[4] != '@';
  }

  /** `/start@<this bot>` reaches the greeting as well. */
  lemma StartMentionDispatch(botName: string)
    requires forall i :: 0 <= i < |botName| ==> !IsSpace(botName[i])
    ensures MessageHandlerFor(true, "/start@" + botName, botName) == StartCmd
  {
    MentionWord(botName, botName);
  }

  /** A `/start` addressed to another bot is not a command for this one, so it is searched for. */
  lemma StartOtherMentionDispatch(botName: string, mention: string)
    requires |mention| > 0 && forall i :: 0 <= i < |mention| ==> !IsSpace(mention[i])
    requires AsciiLower(mention) != AsciiLower(botName)
    ensures MessageHandlerFor(true, "/start@" + mention, botName) == ProcessSearch
  {
    MentionWord(botName, mention);
  }

  /** `/start@<mention>` is the start command exactly when the mention names this bot. */
  lemma MentionWord(botName: string, mention: string)
    requires forall i :: 0 <= i < |mention| ==> !IsSpace(mention[i])
    ensures !IsBlank("/start@" + mention)
    ensures "/start@" + mention != AddMenuText && "/start@" + mention != SearchMenuText
    ensures IsStartCommand("/start@" + mention, botName) <==>
      (mention == [] || AsciiLower(mention) == AsciiLower(botName))
  {
    var word := "/start@" + mention;
    MentionFirstWord(mention);
    MentionSplit(mention);
    StartFolds();
    assert word[0] == '/' && AddMenuText[0] != '/' && SearchMenuText[0] != '/';
  }

  lemma MentionFirstWord(mention: string)
    requires forall i :: 0 <= i < |mention| ==> !IsSpace(mention[i])
    ensures var word := "/start@" + mention;
      && !IsBlank(word) && FirstWord(word) == word && word[0] == '/'
  {
    var word := "/start@" + mention;
    assert forall i :: 7 <= i < |word| ==> word[i] == mention[i - 7];
    NotBlank(word);
    assert word + [] == word;
    FirstWordOf(word, []);
  }

  lemma MentionSplit(mention: string)
    ensures SplitOnce(("/start@" + mention)[1..], '@') == ["start", mention]
  {
    assert ("/start@" + mention)[1..] == "start" + ['@'] + mention;
    StartSpelling("start");
    SplitOnceUnique(("/start@" + mention)[1..], '@', "start", mention);
  }

  /**
   * What the command filter accepts, spelled out on the first word: a slash,
   * five characters that fold to "start", and then either nothing or an `@`
   * followed by an empty mention or one naming this bot.
   */
  lemma StartCommandShape(text: string, botName: string)
    ensures IsStartCommand(text, botName) <==>
      var w := FirstWord(text);
      && |w| >= 6 && w[0] == '/' && AsciiLower(w[1..6]) == "start"
      && (|w| == 6 || (w[6] == '@' && (|w| == 7 || AsciiLower(w[7..]) == AsciiLower(botName))))
  {
    var w := FirstWord(text);
    if |w| > 0 && w[0] == '/' {
      var p := w[1..];
      var parts := SplitOnce(p, '@');
      if AsciiLower(parts[0]) == "start" {
        assert |parts[0]| == 5;
        assert parts[0] == p[..5];
        assert w[1..6] == parts[0];
        if |parts| == 2 {
          assert p == parts[0] + ['@'] + parts[1];
          assert w[6] == p[5] == '@';
          assert w[7..] == parts[1];
        }
      }
      if |w| >= 6 && AsciiLower(w[1..6]) == "start" {
        NoAtInStart(w[1..6]);
        if |w| == 6 {
          assert p == w[1..6];
        } else if w[6] == '@' {
          assert p == w[1..6] + ['@'] + w[7..];
          SplitOnceUnique(p, '@', w[1..6], w[7..]);
        }
      }
    }
  }

  /** A word that folds to "start" holds no `@`. */
  lemma NoAtInStart(s: string)
    requires AsciiLower(s) == "start"
    ensures '@' !in s
  {
    AsciiLowerFolds(s);
  }
}
