/**
 * The record logic of the chat routes of app.py, with the JSON files, the
 * Flask session and the HTTP layer taken away: a chat file is a `ChatData`
 * value, the directory of chat files a map from chat id to `ChatData`, and
 * each route returns its HTTP status beside the new value.
 */
module ChatRecords {
  import opened Wrappers

  /** A JSON value that the routes store or copy without looking inside. */
  datatype JsonText = Null | Str(text: string)

  /** One entry of a history list or of a chat's `messages`. */
  datatype Message = Message(role: string, content: JsonText, timestamp: string)

  /**
   * A chat file. `None` for an optional field means the key is absent from
   * the JSON object; `Some(Null)` means it is present and null.
   */
  datatype ChatData = ChatData(
    id: string,
    title: Option<JsonText>,
    systemPrompt: Option<JsonText>,
    model: Option<JsonText>,
    messages: seq<Message>)

  /** The JSON body of a settings request; `None` is an absent key. */
  datatype SettingsRequest = SettingsRequest(
    title: Option<JsonText>,
    systemPrompt: Option<JsonText>,
    model: Option<JsonText>)

  /** A route's status code and the value it leaves behind. */
  datatype Reply<T> = Reply(status: nat, value: T)

  const Ok: nat := 200
  const BadRequest: nat := 400
  const NotFound: nat := 404

  /** The title `get_chats` reports for a chat file without one. */
  const DefaultTitle: string := "新對話"

  // ---------------------------------------------------------------------
  // Editing the session history (app.py lines 375-388)
  // ---------------------------------------------------------------------

  /** The edit is allowed: a session, an id, in range, and a user message. */
  predicate EditAllowed(history: seq<Message>, hasSession: bool, messageId: Option<int>)
  {
    hasSession && messageId.Some? && 0 <= messageId.value < |history|
    && history[messageId.value].role == "user"
  }

  /**
   * `edit_history`: replaces the content of user message `messageId` and
   * drops every message after it; anything else is refused with 400 and the
   * history is left as it was.
   */
  function EditHistory(history: seq<Message>, hasSession: bool, messageId: Option<int>, newContent: JsonText)
    : (r: Reply<seq<Message>>)
    ensures r.status == Ok <==> EditAllowed(history, hasSession, messageId)
    ensures r.status != Ok ==> r.status == BadRequest && r.value == history
    ensures r.status == Ok ==>
      var id := messageId.value;
      |r.value| == id + 1
      && r.value[..id] == history[..id]
      && r.value[id].role == "user"
      && r.value[id].content == newContent
      && r.value[id].timestamp == history[id].timestamp
  {
    if EditAllowed(history, hasSession, messageId) then
      var id := messageId.value;
      Reply(Ok, history[..id] + [history[id].(content := newContent)])
    else
      Reply(BadRequest, history)
  }

  /** The edited message is the last one of the new history. */
  lemma EditedMessageIsLast(history: seq<Message>, messageId: int, newContent: JsonText)
    requires EditAllowed(history, true, Some(messageId))
    ensures var r := EditHistory(history, true, Some(messageId), newContent);
            r.value[|r.value| - 1] == history[messageId].(content := newContent)
  {
  }

  /** Repeating an accepted edit changes nothing more. */
  lemma EditIdempotent(history: seq<Message>, messageId: int, newContent: JsonText)
    requires EditAllowed(history, true, Some(messageId))
    ensures var once := EditHistory(history, true, Some(messageId), newContent).value;
            EditHistory(once, true, Some(messageId), newContent) == Reply(Ok, once)
  {
    var once := EditHistory(history, true, Some(messageId), newContent).value;
    assert once[..messageId] + [once[messageId].(content := newContent)] == once;
  }

  /**
   * An edit at or before an earlier accepted edit overrides it: editing
   * user message `i` and then user message `j <= i` is editing message `j`
   * alone.
   */
  lemma EditEarlierOverrides(history: seq<Message>, i: int, j: int, c: JsonText, d: JsonText)
    requires EditAllowed(history, true, Some(i))
    requires 0 <= j <= i && history[j].role == "user"
    ensures var once := EditHistory(history, true, Some(i), c).value;
            EditHistory(once, true, Some(j), d) == EditHistory(history, true, Some(j), d)
  {
    var once := EditHistory(history, true, Some(i), c).value;
    assert once[..j] == history[..j];
    assert once == history[..i] + [history[i].(content := c)];
    assert once[j].role == history[j].role;
    assert EditAllowed(once, true, Some(j));
    assert once[j].(content := d) == history[j].(content := d);
  }

  // ---------------------------------------------------------------------
  // Chat settings (app.py lines 149-168)
  // ---------------------------------------------------------------------

  /** `d.get(key, default)` for one optional field. */
  function GetOr(field: Option<JsonText>, default: JsonText): JsonText
  {
    if field.Some? then field.value else default
  }

  /**
   * The three assignments of `update_chat_settings`: a key present in the
   * request overwrites the chat's value; otherwise the chat keeps its value,
   * and an absent key becomes a stored null.
   */
  function MergeSettings(chat: ChatData, request: SettingsRequest): (r: ChatData)
    ensures r.id == chat.id && r.messages == chat.messages
    ensures request.title.Some? ==> r.title == request.title
    ensures request.systemPrompt.Some? ==> r.systemPrompt == request.systemPrompt
    ensures request.model.Some? ==> r.model == request.model
    ensures request.title.None? ==> r.title == Some(GetOr(chat.title, Null))
    ensures request.systemPrompt.None? ==> r.systemPrompt == Some(GetOr(chat.systemPrompt, Null))
    ensures request.model.None? ==> r.model == Some(GetOr(chat.model, Null))
  {
    chat.(title := Some(GetOr(request.title, GetOr(chat.title, Null))),
          systemPrompt := Some(GetOr(request.systemPrompt, GetOr(chat.systemPrompt, Null))),
          model := Some(GetOr(request.model, GetOr(chat.model, Null))))
  }

  /** A later request's keys win over an earlier one's. */
  function Override(first: SettingsRequest, second: SettingsRequest): SettingsRequest
  {
    SettingsRequest(
      if second.title.Some? then second.title else first.title,
      if second.systemPrompt.Some? then second.systemPrompt else first.systemPrompt,
      if second.model.Some? then second.model else first.model)
  }

  /** Sending the same settings twice is sending them once. */
  lemma MergeIdempotent(chat: ChatData, request: SettingsRequest)
    ensures MergeSettings(MergeSettings(chat, request), request) == MergeSettings(chat, request)
  {
  }

  /** Two settings requests in a row act as one request holding both, the later winning. */
  lemma MergeCompose(chat: ChatData, first: SettingsRequest, second: SettingsRequest)
    ensures MergeSettings(MergeSettings(chat, first), second) == MergeSettings(chat, Override(first, second))
  {
  }

  /** An empty request keeps every setting the chat has, and only adds nulls for absent ones. */
  lemma EmptyRequestKeeps(chat: ChatData)
    requires chat.title.Some? && chat.systemPrompt.Some? && chat.model.Some?
    ensures MergeSettings(chat, SettingsRequest(None, None, None)) == chat
  {
  }

  /**
   * `update_chat_settings` on the directory of chats: 404 for an unknown
   * chat, otherwise the merged chat is stored under the same id.
   */
  function UpdateChatSettings(store: map<string, ChatData>, chatId: string, request: SettingsRequest)
    : (r: Reply<map<string, ChatData>>)
    ensures r.status == NotFound <==> chatId !in store
    ensures r.status != NotFound ==> r.status == Ok
    ensures r.value.Keys == store.Keys
    ensures forall other :: other in store && other != chatId ==> r.value[other] == store[other]
    ensures chatId in store ==> r.value[chatId] == MergeSettings(store[chatId], request)
    ensures chatId !in store ==> r.value == store
  {
    if chatId !in store then Reply(NotFound, store)
    else Reply(Ok, store[chatId := MergeSettings(store[chatId], request)])
  }

  // ---------------------------------------------------------------------
  // Clearing a chat (app.py lines 402-420)
  // ---------------------------------------------------------------------

  /** `chat_data['messages'] = []`: the messages go, the settings stay. */
  function ClearChat(chat: ChatData): (r: ChatData)
    ensures r.messages == []
    ensures r.id == chat.id && r.title == chat.title
    ensures r.systemPrompt == chat.systemPrompt && r.model == chat.model
  {
    chat.(messages := [])
  }

  /** `clear_chat` on the directory of chats: always 200; an unknown chat is left alone. */
  function ClearChatIn(store: map<string, ChatData>, chatId: string): (r: Reply<map<string, ChatData>>)
    ensures r.status == Ok
    ensures r.value.Keys == store.Keys
    ensures forall other :: other in store && other != chatId ==> r.value[other] == store[other]
    ensures chatId in store ==> r.value[chatId] == ClearChat(store[chatId])
  {
    if chatId in store then Reply(Ok, store[chatId := ClearChat(store[chatId])]) else Reply(Ok, store)
  }

  /** Clearing twice is clearing once. */
  lemma ClearIdempotent(store: map<string, ChatData>, chatId: string)
    ensures ClearChatIn(ClearChatIn(store, chatId).value, chatId) == ClearChatIn(store, chatId)
  {
    if chatId in store {
      var once := ClearChatIn(store, chatId).value;
      assert ClearChat(once[chatId]) == once[chatId];
      assert once[chatId := once[chatId]] == once;
    }
  }

  /** Clearing and changing settings do not interfere with each other. */
  lemma ClearCommutesWithMerge(chat: ChatData, request: SettingsRequest)
    ensures ClearChat(MergeSettings(chat, request)) == MergeSettings(ClearChat(chat), request)
  {
  }

  // ---------------------------------------------------------------------
  // Listing chats (app.py lines 106-123)
  // ---------------------------------------------------------------------

  /** One entry of the list `get_chats` returns. */
  datatype ChatSummary = ChatSummary(id: string, title: JsonText, lastMessage: JsonText, timestamp: string)

  /**
   * The summary of one chat file named `stem`: its title (the default title
   * when the key is absent), and the content and time of its last message,
   * or empty strings for a chat without messages.
   */
  function Summary(stem: string, data: ChatData): (r: ChatSummary)
    ensures r.id == stem
    ensures data.title.Some? ==> r.title == data.title.value
    ensures data.title.None? ==> r.title == Str(DefaultTitle)
    ensures data.messages == [] ==> r.lastMessage == Str("") && r.timestamp == ""
    ensures data.messages != [] ==> Message(data.messages[|data.messages| - 1].role, r.lastMessage, r.timestamp)
                                    == data.messages[|data.messages| - 1]
  {
    var title := GetOr(data.title, Str(DefaultTitle));
    if data.messages == [] then ChatSummary(stem, title, Str(""), "")
    else
      var last := data.messages[|data.messages| - 1];
      ChatSummary(stem, title, last.content, last.timestamp)
  }

  /** After a message is appended, the summary shows that message. */
  lemma SummaryAfterAppend(stem: string, data: ChatData, m: Message)
    ensures var s := Summary(stem, data.(messages := data.messages + [m]));
            s.lastMessage == m.content && s.timestamp == m.timestamp
  {
  }

  /** A cleared chat lists with its title and an empty last message. */
  lemma SummaryAfterClear(stem: string, data: ChatData)
    ensures var s := Summary(stem, ClearChat(data));
            s.title == Summary(stem, data).title && s.lastMessage == Str("") && s.timestamp == ""
  {
  }

  /** After a settings change the list shows the title sent, even a null one. */
  lemma SummaryAfterMerge(stem: string, data: ChatData, request: SettingsRequest)
    requires request.title.Some?
    ensures Summary(stem, MergeSettings(data, request)).title == request.title.value
  {
  }

  /** `get_chats`: one summary per chat file, in the order the files are visited. */
  method ListChats(files: seq<(string, ChatData)>) returns (chats: seq<ChatSummary>)
    ensures |chats| == |files|
    ensures forall i :: 0 <= i < |files| ==> chats[i] == Summary(files[i].0, files[i].1)
  {
    chats := [];
    for k := 0 to |files|
      invariant |chats| == k
      invariant forall i :: 0 <= i < k ==> chats[i] == Summary(files[i].0, files[i].1)
    {
      var (stem, data) := files[k];
      chats := chats + [Summary(stem, data)];
    }
  }
}
