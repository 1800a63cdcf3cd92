/**
 * The bot as a whole: the catalog connection, the per-user FSM storage and
 * the four message handlers and two callback handlers of tobacco.py, each
 * event answered by at most one reply.
 */
module Bot {
  import opened Optional
  import opened Tokens
  import opened Catalog
  import opened Replies
  import opened Search
  import opened Dispatch

  type UserId = int

  /** The states of `TobaccoForm` (tobacco.py:49-55); only `Name` is ever entered. */
  datatype FormState = Name | Taste | Molasses | SmokeTime | HeatResistance | Comment

  /** The record card of `show_tobacco`, with edit and delete buttons built from the stored name. */
  function CardFor(r: Record): (reply: Reply)
    ensures reply.Card? && reply.record == r && |reply.actions| == 2
    ensures RouteOf(reply.actions[0].token) == Unrouted
    ensures RouteOf(reply.actions[1].token) == ToDelete && Payload(reply.actions[1].token) == Some(r.name)
  {
    RouteOfEncode(r.name);
    RoundTrip(DeletePrefix, r.name);
    Card(r, [Button(EditLabel, Encode(EditPrefix, r.name)), Button(DeleteLabel, Encode(DeletePrefix, r.name))])
  }

  /** The new FSM storage and the reply after one text message; `ranked` is the ranking of the text. */
  function MessageStep(states: map<UserId, FormState>, user: UserId, text: string, botName: string,
                       ranked: seq<Match>): (step: (map<UserId, FormState>, Option<Reply>))
    ensures user in states ==> step == (states, None)
    ensures user !in states && !IsBlank(text) ==> step.1.Some?
    ensures step.0 == states || (user !in states && text == AddMenuText && step == (states[user := Name], Some(AskName)))
    ensures MessageHandlerFor(user !in states, text, botName) == NoHandler ==> step == (states, None)
    ensures IsBlank(text) ==> step == (states, None)
    ensures MessageHandlerFor(user !in states, text, botName) == StartCmd ==> step == (states, Some(Greeting))
    ensures MessageHandlerFor(user !in states, text, botName) == SearchTobacco ==> step == (states, Some(AskQuery))
    ensures MessageHandlerFor(user !in states, text, botName) == ProcessSearch ==>
      step == (states, Some(SearchReply(ranked)))
  {
    match MessageHandlerFor(user !in states, text, botName)
    case StartCmd => (states, Some(Greeting))
    case AddTobacco => (states[user := Name], Some(AskName))
    case SearchTobacco => (states, Some(AskQuery))
    case ProcessSearch => (states, Some(SearchReply(ranked)))
    case NoHandler => (states, None)
  }

  /** The new table and the reply after one button tap. */
  function CallbackStep(rows: Table, idle: bool, token: string): (step: (Table, Option<Reply>))
    requires WellFormed(rows)
    ensures WellFormed(step.0)
    ensures !idle ==> step == (rows, None)
    ensures step.0 == rows || (DeletePrefix <= token && step.0 == Remove(rows, token[|DeletePrefix|..]) && step.1 == Some(Deleted))
    ensures step.1.Some? && step.1.value.Card? ==>
      step.0 == rows && step.1.value.record in rows.Values
      && SelectPrefix <= token && step.1.value.record.name == token[|SelectPrefix|..]
    ensures CallbackRouteFor(idle, token) == Unrouted ==> step == (rows, None)
    ensures CallbackRouteFor(idle, token) == ToDelete ==>
      DeletePrefix <= token && step == (Remove(rows, token[|DeletePrefix|..]), Some(Deleted))
    ensures CallbackRouteFor(idle, token) == ToShow ==>
      SelectPrefix <= token && step.0 == rows
      && step.1 == (var name := token[|SelectPrefix|..]; if name in rows then Some(CardFor(rows[name])) else None)
  {
    RoutedTokenDecodes(token);
    match CallbackRouteFor(idle, token)
    case ToShow =>
      (rows, match Find(rows, Payload(token).value)
             case None => None
             case Some(r) => Some(CardFor(r)))
    case ToDelete => (Remove(rows, Payload(token).value), Some(Deleted))
    case Unrouted => (rows, None)
  }

  class TobaccoBot {
    const store: Store
    const botName: string
    /** The FSM storage: the state of each user who has one. */
    var states: map<UserId, FormState>

    ghost predicate Valid()
      reads this, store
    {
      && store.Valid()
      && forall u :: u in states ==> states[u] == Name
    }

    constructor (store: Store, botName: string)
      requires store.Valid()
      ensures Valid()
      ensures this.store == store && this.botName == botName && states == map[]
    {
      this.store := store;
      this.botName := botName;
      states := map[];
    }

    /** One text message from `user`; `ranked` is what the fuzzy ranking makes of its text against the catalog. */
    method OnMessage(user: UserId, text: string, ranked: seq<Match>) returns (reply: Option<Reply>)
      requires Valid()
      requires IsRanking(ranked, store.Names(), Limit)
      modifies this
      ensures Valid()
      ensures (states, reply) == MessageStep(old(states), user, text, botName, ranked)
      ensures store.rows == old(store.rows)
    {
      match MessageHandlerFor(user !in states, text, botName)
      case StartCmd =>
        reply := Some(Greeting);
      case AddTobacco =>
        states := states[user := Name];
        reply := Some(AskName);
      case SearchTobacco =>
        reply := Some(AskQuery);
      case ProcessSearch =>
        var r := BuildReply(ranked);
        reply := Some(r);
      case NoHandler =>
        reply := None;
    }

    /** One tap on an inline button carrying `token`. */
    method OnCallback(user: UserId, token: string) returns (reply: Option<Reply>)
      requires Valid()
      modifies store
      ensures Valid()
      ensures (store.rows, reply) == CallbackStep(old(store.rows), user !in states, token)
      ensures states == old(states)
    {
      RoutedTokenDecodes(token);
      match CallbackRouteFor(user !in states, token)
      case ToShow =>
        var name := Payload(token).value;
        var row := store.Lookup(name);
        if row.Some? {
          reply := Some(CardFor(row.value));
        } else {
          reply := None;
        }
      case ToDelete =>
        var name := Payload(token).value;
        store.Delete(name);
        reply := Some(Deleted);
      case Unrouted =>
        reply := None;
    }
  }

  /**
   * A selection token resolves to the exact name it was built from, looked up
   * in the catalog as it is when the button is tapped: the card of that row,
   * or no reply at all when the row is gone.  The table is not touched.
   */
  lemma SelectResolvesByName(rows: Table, name: string)
    requires WellFormed(rows)
    ensures CallbackStep(rows, true, Encode(SelectPrefix, name)) ==
      (rows, if name in rows then Some(CardFor(rows[name])) else None)
  {
    RouteOfEncode(name);
    RoundTrip(SelectPrefix, name);
  }

  /**
   * A delete token removes the row of exactly the name it was built from and
   * no other, and is answered "deleted" even when there was no such row.
   */
  lemma DeleteRemovesByName(rows: Table, name: string)
    requires WellFormed(rows)
    ensures var (after, reply) := CallbackStep(rows, true, Encode(DeletePrefix, name));
      && reply == Some(Deleted)
      && WellFormed(after)
      && after.Keys == rows.Keys - {name}
      && (forall n :: n in after ==> after[n] == rows[n])
      && (name !in rows ==> after == rows)
  {
    RouteOfEncode(name);
    RoundTrip(DeletePrefix, name);
  }

  /**
   * The card's buttons carry the stored name: its edit token reaches no
   * handler and changes nothing, and its delete token removes that very row.
   */
  lemma CardActions(rows: Table, r: Record)
    requires WellFormed(rows)
    ensures CardFor(r).actions[0].token == Encode(EditPrefix, r.name)
    ensures CallbackStep(rows, true, CardFor(r).actions[0].token) == (rows, None)
    ensures CallbackStep(rows, true, CardFor(r).actions[1].token).0 == Remove(rows, r.name)
  {
    RouteOfEncode(r.name);
    RoundTrip(DeletePrefix, r.name);
  }

  /**
   * After a delete, showing the deleted name sends nothing, and deleting it
   * again leaves the table as it is and still answers "deleted".
   */
  lemma DeleteThenShowOrDeleteAgain(rows: Table, name: string)
    requires WellFormed(rows)
    ensures var after := CallbackStep(rows, true, Encode(DeletePrefix, name)).0;
      && WellFormed(after)
      && CallbackStep(after, true, Encode(SelectPrefix, name)) == (after, None)
      && CallbackStep(after, true, Encode(DeletePrefix, name)) == (after, Some(Deleted))
  {
    DeleteRemovesByName(rows, name);
    var after := CallbackStep(rows, true, Encode(DeletePrefix, name)).0;
    SelectResolvesByName(after, name);
    DeleteRemovesByName(after, name);
    RemoveAbsentIsIdentity(after, name);
  }

  /**
   * Search then select: tapping any offered button of a search over the
   * current catalog shows the card of exactly that row.
   */
  lemma SearchThenSelect(rows: Table, ranked: seq<Match>, k: nat)
    requires WellFormed(rows) && IsRanking(ranked, rows.Keys, Limit)
    requires SearchReply(ranked).Choose? && k < |SearchReply(ranked).options|
    ensures var b := SearchReply(ranked).options[k];
      && b.caption in rows
      && CallbackStep(rows, true, b.token) == (rows, Some(CardFor(rows[b.caption])))
  {
    OptionsAreSelectable(ranked, rows.Keys);
    var b := SearchReply(ranked).options[k];
    assert b.token == Encode(SelectPrefix, b.caption);
    SelectResolvesByName(rows, b.caption);
  }

  /**
   * Any text from an idle user that is not blank, not a `/start` command and
   * not one of the two menu captions is taken as a search query: the reply is
   * the search result over the catalog and nothing else changes.
   */
  lemma OrdinaryTextIsSearched(states: map<UserId, FormState>, user: UserId, text: string, botName: string,
                               ranked: seq<Match>)
    requires user !in states && !IsBlank(text) && !IsStartCommand(text, botName)
    requires text != AddMenuText && text != SearchMenuText
    ensures MessageStep(states, user, text, botName, ranked) == (states, Some(SearchReply(ranked)))
  {
    assert MessageHandlerFor(true, text, botName) == ProcessSearch;
  }

  /**
   * Pressing "Добавить табак" puts the user in the `Name` state; from then on
   * no message and no button tap of theirs reaches a handler, so they get no
   * reply and nothing changes.
   */
  lemma AddLocksUser(states: map<UserId, FormState>, user: UserId, botName: string, ranked: seq<Match>,
                     text: string, ranked': seq<Match>, rows: Table, token: string)
    requires user !in states && WellFormed(rows)
    ensures var (after, reply) := MessageStep(states, user, AddMenuText, botName, ranked);
      && reply == Some(AskName) && after == states[user := Name]
      && MessageStep(after, user, text, botName, ranked') == (after, None)
      && CallbackStep(rows, user !in after, token) == (rows, None)
  {
    MenuDispatch(botName);
    var after := states[user := Name];
    assert MessageStep(states, user, AddMenuText, botName, ranked) == (after, Some(AskName));
    assert user in after;
    assert MessageHandlerFor(false, text, botName) == NoHandler;
    assert CallbackRouteFor(false, token) == Unrouted;
  }
}
