# Tobacco catalog bot — search, select and delete

A Dafny model of the decision logic of a small Telegram bot (`tobacco.py`) that
keeps a catalog of hookah tobaccos in a `tobaccos` table. The model covers four
parts of the bot:

- **Dispatch.** A text message is routed by the handler registration order.
  `/start` gets the greeting. "Добавить табак" asks for a name and sets the user's
  form state. "Поиск табака" asks for a query. Every other text is a search query.
  A non-empty text made only of whitespace makes the command filter raise, so it
  gets no reply. A button tap is routed by the prefix of its callback data:
  `select_` or `delete_`.
- **Search.** The catalog names are ranked against the query by a fuzzy matcher.
  Matches scoring strictly above 60 become buttons, in ranking order. If none
  survive, the reply is "Табак не найден.".
- **Callback tokens.** A token is `select_`, `edit_` or `delete_` followed by the
  exact name. It is decoded with Python's `token.split("_", 1)[1]`.
- **The catalog.** A map from the UNIQUE `name` to the row. It is read by exact name
  (show a card with edit and delete buttons) and changed only by delete by name.

Handlers in the bot framework that declare no form state fire only for users who
have no state. No handler in `tobacco.py` declares one. So after "Добавить табак"
sets `TobaccoForm.name`, that user's messages and button taps reach no handler.
The model keeps this: `Bot.MessageStep`, `Bot.CallbackStep` and `Bot.AddLocksUser`.

Modules: `Optional` (the option type), `Tokens`, `Catalog`, `Replies` (replies as
values, with their fixed texts), `Search`, `Dispatch` and `Bot`. `Bot.TobaccoBot`
holds the catalog object and the per-user form states. Its two methods handle one
event each.

The fuzzy ranking is foreign code. It enters the model as its output sequence of
`(name, score)` pairs. `Search.IsRanking` states what that output satisfies: at most
`limit` pairs, distinct names drawn from the catalog, scores from 0 to 100, best
first.

Three behaviours of the code worth knowing:
- Deleting an absent name is not reported as "not found". The reply is "Табак удален."
  and the table is unchanged.
- Selecting a name that has vanished sends nothing at all.
- There is no field-by-field capture, no insert and no edit handler.

## Model

| member | source | states |
|---|---|---|
| Tokens.Encode | tobacco.py:90-109 | a token starts with its action prefix, and what follows the prefix is exactly the name |
| Tokens.RouteOf | tobacco.py:98-113 | a token reaches the show handler exactly when it starts with `select_`, the delete handler exactly when it starts with `delete_`, and no handler otherwise |
| Tokens.IndexOf | tobacco.py:100 | finds the first `_`: the result is absent exactly when there is none, and otherwise no earlier character is the separator |
| Tokens.SplitOnce | tobacco.py:100 | `split(sep, 1)`: the whole string when `sep` is absent, else the head before the first `sep` and the tail after it, so that head + sep + tail rebuilds the input |
| Tokens.Payload | tobacco.py:100 | `split("_", 1)[1]` succeeds exactly when the token contains `_` (otherwise IndexError), giving the text after the first `_` |
| Tokens.SplitOnceUnique | tobacco.py:100 | the split at the first separator is the only split whose head has no separator |
| Tokens.RoundTrip | tobacco.py:90-100 | decoding prefix + name gives back exactly the name, for every name, including names containing `_` |
| Tokens.PrefixesAreActionPrefixes | tobacco.py:108-109 | `select_`, `edit_` and `delete_` each end in the only `_` they contain |
| Tokens.PrefixesExclusive | tobacco.py:98-113 | no token starts with two of the three prefixes, so routing never depends on handler order |
| Tokens.RouteOfEncode | tobacco.py:98-113 | a select token reaches only the show handler, a delete token only the delete handler, an edit token neither |
| Tokens.RoutedTokenDecodes | tobacco.py:98-115 | a token that reaches the show or delete handler always decodes, to the text after its prefix |
| Catalog.Find | tobacco.py:101-103 | exact-name lookup finds a row exactly when a row has that name, and the row found carries that name |
| Catalog.Remove | tobacco.py:116-117 | delete by name removes that key and keeps every other row unchanged |
| Catalog.AtMostOneMatch | tobacco.py:31 | with `name` UNIQUE, two rows with the same name are the same row |
| Catalog.RemovePreservesWellFormed | tobacco.py:29-36 | deletion keeps every row under its own name and ids distinct |
| Catalog.FindAfterRemove | tobacco.py:101-117 | after a delete the name is not found, and lookups of other names are unaffected |
| Catalog.RemoveAbsentIsIdentity | tobacco.py:116-117 | deleting an absent name changes nothing, so deleting twice equals deleting once |
| Catalog.Store.constructor | tobacco.py:28-38 | the table starts from well-formed contents |
| Catalog.Store.Names | tobacco.py:82-83 | the listed names are exactly the names that lookup finds |
| Catalog.Store.Lookup | tobacco.py:101-103 | returns the row stored under the name, or nothing when it is absent; the table is only read |
| Catalog.Store.Delete | tobacco.py:116-117 | the new table is the old one without that name; every other row is unchanged; the invariant is kept |
| Search.Survivors | tobacco.py:88-90 | the matches kept by the threshold test: never more than the ranking holds, each scoring above 60 |
| Search.SearchReply | tobacco.py:86-96 | the reply is "not found" or a non-empty option list with one button per survivor, in order, captioned with its name and routed to the show handler |
| Search.BuildReply | tobacco.py:86-96 | the loop's reply equals the search reply; it is "not found" exactly when no ranked score exceeds 60 |
| Search.SurvivorsAppend | tobacco.py:88-90 | the threshold filter distributes over concatenation, which is what makes the loop correct |
| Search.SurvivorsMembership | tobacco.py:89 | a match survives if and only if it was ranked and its score is strictly greater than 60 |
| Search.SurvivorsInOrder | tobacco.py:88-90 | survivors are a subsequence of the ranking, in the same order, and never more numerous |
| Search.SurvivorsDescending | tobacco.py:84-90 | a best-first ranking stays best-first after filtering |
| Search.SurvivorsDistinct | tobacco.py:83-90 | survivors of a ranking with distinct names have distinct names |
| Search.NotFoundExactly | tobacco.py:86-96 | "not found" exactly when the ranking is empty or no score exceeds 60; otherwise the option list of the survivors |
| Search.EmptyCatalogNotFound | tobacco.py:82-96 | a search of an empty catalog always answers "not found" |
| Search.ThresholdIsStrict | tobacco.py:89 | a single match scoring exactly 60 gives "not found"; one scoring 61 gives one option |
| Search.OptionsAreSelectable | tobacco.py:84-90 | between one and five options, distinct names from the catalog that scored above 60, each token routed to show and decoding to its name |
| Dispatch.AsciiLowerFolds | tobacco.py:65 | the command's case folding: capitals become their lower-case letter, other characters are kept, and no capital is left |
| Dispatch.IsStartCommand | tobacco.py:65 | a text that passes the `commands=['start']` filter contains `/` |
| Dispatch.StartCommandShape | tobacco.py:65 | a text passes the `commands=['start']` filter exactly when its first word is `/`, five characters folding to `start`, and then nothing, or `@` with an empty mention or one folding to the bot's name |
| Dispatch.MessageHandlerFor | tobacco.py:65-80 | no handler for a user with a form state or for a blank text; the add and search handlers exactly for their menu texts; the greeting exactly for the start command; the search handler for every other text |
| Dispatch.CallbackRouteFor | tobacco.py:98-113 | a user with a form state reaches no callback handler; for any other user the token's prefix decides |
| Dispatch.BlankTextUnanswered | tobacco.py:65-80 | a non-empty text made only of whitespace reaches no handler |
| Dispatch.NotCommand | tobacco.py:65 | a text whose first character is neither `/` nor whitespace is not the start command |
| Dispatch.MenuDispatch | tobacco.py:65-80 | the add and search menu texts reach their handlers; the edit and delete menu texts fall through to the search handler |
| Dispatch.FirstWordOf | tobacco.py:65 | the command word of a text that begins with a word is that word |
| Dispatch.StartWord | tobacco.py:65-67 | `/` + a command word that folds to `start` reaches the greeting |
| Dispatch.StartWordIsCommand | tobacco.py:65 | `/` + a command word that folds to `start` passes the command filter and is not blank |
| Dispatch.StartDispatch | tobacco.py:65-67 | `/start` and `/START`, alone or followed by whitespace, reach the greeting |
| Dispatch.StartMentionDispatch | tobacco.py:65-67 | `/start@<this bot>` reaches the greeting |
| Dispatch.MentionWord | tobacco.py:65 | `/start@<mention>` is the start command exactly when the mention is empty or names this bot |
| Dispatch.StartOtherMentionDispatch | tobacco.py:65-80 | `/start@<another bot>` is not the command and is taken as a search query |
| Replies.TextOf | tobacco.py:67-118 | the fixed text of each reply; "Табак не найден.", "Табак удален." and "Выберите табак:" each identify their reply, and only the card has no fixed text |
| Bot.CardFor | tobacco.py:104-111 | the card shows the row itself with two buttons: edit, which reaches no handler, and delete, which decodes to the stored name |
| Bot.MessageStep | tobacco.py:65-96 | a user with a form state gets no reply and changes nothing; an idle user gets one reply to any non-blank text, and no reply and no change for a blank one; only "Добавить табак" changes the states, adding `Name` for that user; the start command is answered with the greeting, "Поиск табака" with the query prompt, and any other text with the search reply of its ranking, the states unchanged |
| Bot.CallbackStep | tobacco.py:98-118 | the table stays well formed; a user with a form state, or a token with neither action prefix, changes nothing and gets no reply; a `delete_` token removes exactly the name after the prefix and is answered "deleted"; a `select_` token leaves the table as it is and shows the card of the name after the prefix, or sends nothing when that name is not stored |
| Bot.TobaccoBot.constructor | tobacco.py:19-25 | the bot starts with the given catalog and no user in a form state |
| Bot.TobaccoBot.OnMessage | tobacco.py:65-96 | the new form states and the reply follow the dispatch order; the catalog is never changed by a message |
| Bot.TobaccoBot.OnCallback | tobacco.py:98-118 | the new table and reply follow callback routing, lookup and delete; the form states are unchanged |
| Bot.SelectResolvesByName | tobacco.py:98-111 | a select token shows the row of exactly its name in the current table, or sends nothing if it is gone; the table is unchanged |
| Bot.DeleteRemovesByName | tobacco.py:113-118 | a delete token removes exactly its name and no other row, and always answers "Табак удален." |
| Bot.CardActions | tobacco.py:107-113 | the card's edit token reaches no handler; its delete token removes the shown row |
| Bot.DeleteThenShowOrDeleteAgain | tobacco.py:98-118 | after a delete, showing that name sends nothing; deleting again keeps the table and still answers "deleted" |
| Bot.SearchThenSelect | tobacco.py:80-111 | tapping any offered search option shows the card of exactly that catalog row |
| Bot.OrdinaryTextIsSearched | tobacco.py:80-96 | an idle user's text that is not blank, not the start command and neither menu caption is answered with the search reply of its ranking, the states unchanged |
| Bot.AddLocksUser | tobacco.py:49-80 | "Добавить табак" asks for a name and sets the `Name` state; afterwards no message or tap of that user gets a reply or changes anything |

## Left out

- The fuzzy scorer, `process.extract`, is foreign code. Its output is an input constrained by `Search.IsRanking`; its similarity algorithm is not modelled.
- Transport: the bot object, keyboards, `message.answer`, `bot.send_message` and async handling. Replies are values of `Replies.Reply`.
- The main menu markup itself (tobacco.py:58-62) is not modelled; only its texts are, as constants.
- Telegram's 64-byte limit on callback data is not modelled. A long name would make the whole option message fail to send.
- Callback queries are never answered with `answer_callback_query`; that is transport and is not modelled.
- Database plumbing: the connection, cursor, commits, SQL text and database errors. Only the table semantics are kept, as a map.
- Rows with a NULL `name` are not modelled. The table is a map keyed by non-null names.
- The order of `SELECT name` results is not modelled. The names are a set; the ranking fixes the order.
- The FLOAT columns and the comment are opaque values. The card's text formatting (tobacco.py:104-105) depends on Python's float printing and is not modelled; the card carries the row itself.
- The Flask liveness route, logging setup, the web-server thread and polling startup (tobacco.py:13-20, 41-46, 120-123) are process plumbing and concurrency.
- Form states are keyed by user id. The framework keys them by chat and user; this is the same thing in a private chat.
- Dispatch.IsStartCommand folds case only for ASCII letters, and treats only space and the ASCII controls from tab to carriage return as whitespace. Python's Unicode `lower()` and `split()` go further (for example, the Kelvin sign lowercases to `k`).
- Field-by-field capture, insert and edit are not modelled, because the code has none. The states of `TobaccoForm` are declared, and only `Name` is ever set.
