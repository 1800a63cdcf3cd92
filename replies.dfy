/**
 * What the bot sends back, as values rather than transport calls.  Each
 * constructor stands for one `message.answer` / `bot.send_message` of
 * tobacco.py, with its fixed text below.
 */
module Replies {
  import opened Optional
  import Catalog

  /** An inline button: its caption and the callback data a tap sends back. */
  datatype Button = Button(caption: string, token: string)

  datatype Reply =
    | Greeting                    // tobacco.py:67, with the main menu
    | AskName                     // tobacco.py:73
    | AskQuery                    // tobacco.py:78
    | Choose(options: seq<Button>) // tobacco.py:92
    | NotFound                    // tobacco.py:94 and 96
    | Card(record: Catalog.Record, actions: seq<Button>) // tobacco.py:104-111
    | Deleted                     // tobacco.py:118

  const GreetingText: string := "Привет! Этот бот поможет тебе хранить информацию о табаках."
  const AskNameText: string := "Введите название табака:"
  const AskQueryText: string := "Введите название табака для поиска:"
  const ChooseText: string := "Выберите табак:"
  const NotFoundText: string := "Табак не найден."
  const DeletedText: string := "Табак удален."
  const EditLabel: string := "Редактировать"
  const DeleteLabel: string := "Удалить"

  /**
   * The text a reply is sent with.  A card's text is the row formatted
   * field by field, which is not modelled.
   */
  function TextOf(r: Reply): (t: Option<string>)
    ensures t.None? <==> r.Card?
    ensures t == Some(NotFoundText) <==> r.NotFound?
    ensures t == Some(DeletedText) <==> r.Deleted?
    ensures t == Some(ChooseText) <==> r.Choose?
  {
    match r
    case Greeting => Some(GreetingText)
    case AskName => Some(AskNameText)
    case AskQuery => Some(AskQueryText)
    case Choose(_) => Some(ChooseText)
    case NotFound => Some(NotFoundText)
    case Card(_, _) => None
    case Deleted => Some(DeletedText)
  }

  /** The main-menu keyboard texts (tobacco.py:58-62). */
  const AddMenuText: string := "Добавить табак"
  const SearchMenuText: string := "Поиск табака"
  const EditMenuText: string := "Редактировать табак"
  const DeleteMenuText: string := "Удалить табак"
}
