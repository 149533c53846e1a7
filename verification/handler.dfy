/**
  The update dispatcher of handler.go. One update is handled by a pure
  function from the store, the update, the operator's user ID and the clock
  to the new store and the notifications sent to the operator, in order.

  The diff renderer `generatePrettyDiff` is not part of this model and is a
  parameter `diff`; delivery is appending to the sent sequence.
 */
module Handler {
  import opened Wrappers
  import opened Models
  import opened Store
  import opened Format
  import Decimal

  /** A notification to the operator, before it is rendered as HTML text. */
  datatype Notification =
    | StatsReport(count: nat)
    | EditReport(userName: string, chatTitle: string, body: string)
    | DeleteReport(chatTitle: string, body: string)

  /**
    The result of handling one update. `Crashed` is the nil dereference in
    getUserName for an edited message without a sender: the handler stops
    before touching the store or sending anything.
   */
  datatype Outcome =
    | Handled(store: MessageStore, sent: seq<Notification>)
    | Crashed

  const StatsCommand: string := "/stats"
  const Separator: string := "━━━━━━━━━━━━━━━"
  const UnchangedBody: string := "<i>Сообщение отредактировано (текст не изменился)</i>"
  const StatsPrefix: string := "📊 Сообщений в хранилище: <b>"

  // ---------------------------------------------------------------------------
  // Rendering
  // ---------------------------------------------------------------------------

  /** The text after the header line: the separator line, then the body. */
  function Tail(body: string): string {
    "\n" + Separator + "\n" + body
  }

  /** The /stats reply; the count can be read back from between the bold tags. */
  function RenderStats(count: nat): (text: string)
    ensures |StatsPrefix| + 4 < |text|
    ensures text[..|StatsPrefix|] == StatsPrefix
    ensures text[|text| - 4..] == "</b>"
    ensures var digits := text[|StatsPrefix|..|text| - 4];
      Decimal.IsDigits(digits) && Decimal.ParseDecimal(digits) == count
  {
    var digits := Decimal.IntToDecimal(count);
    Decimal.DecimalRoundTrip(count);
    var text := StatsPrefix + digits + "</b>";
    assert text[|StatsPrefix|..|text| - 4] == digits;
    text
  }

  /** An edit report: sender and chat in the header, the body after the separator. */
  function RenderEdit(userName: string, chatTitle: string, body: string): (text: string)
    ensures |Tail(body)| <= |text| && text[|text| - |Tail(body)|..] == Tail(body)
    ensures StartsWith(text, "✏️ <b>" + userName + "</b> | " + chatTitle + "\n")
    ensures |text| == |"✏️ <b>" + userName + "</b> | " + chatTitle| + |Tail(body)|
  {
    var header := "✏️ <b>" + userName + "</b> | " + chatTitle;
    var text := header + Tail(body);
    assert text[|text| - |Tail(body)|..] == Tail(body);
    assert text[..|header| + 1] == header + "\n";
    text
  }

  /** A deletion report: chat in the header, the recovered text after the separator. */
  function RenderDelete(chatTitle: string, body: string): (text: string)
    ensures |Tail(body)| <= |text| && text[|text| - |Tail(body)|..] == Tail(body)
    ensures StartsWith(text, "🗑 <b>" + chatTitle + "</b>\n")
    ensures |text| == |"🗑 <b>" + chatTitle + "</b>"| + |Tail(body)|
  {
    var header := "🗑 <b>" + chatTitle + "</b>";
    var text := header + Tail(body);
    assert text[|text| - |Tail(body)|..] == Tail(body);
    assert text[..|header| + 1] == header + "\n";
    text
  }

  /** The HTML text delivered for a notification. */
  function Render(n: Notification): string {
    match n
    case StatsReport(count) => RenderStats(count)
    case EditReport(userName, chatTitle, body) => RenderEdit(userName, chatTitle, body)
    case DeleteReport(chatTitle, body) => RenderDelete(chatTitle, body)
  }

  /** The original text of a deleted message can be read back from the delivered text. */
  lemma DeleteReportRecoversText(chatTitle: string, original: string)
    ensures var text := Render(DeleteReport(chatTitle, EscapeHTML(original)));
      var body := EscapeHTML(original);
      Unescape(text[|text| - |body|..]) == original
  {
    var body := EscapeHTML(original);
    var text := RenderDelete(chatTitle, body);
    assert text[|text| - |body|..] == Tail(body)[|Tail(body)| - |body|..];
  }

  // ---------------------------------------------------------------------------
  // Classification helpers
  // ---------------------------------------------------------------------------

  /** `From != nil && From.ID == userID`. */
  predicate SentBy(m: Message, userID: int) {
    m.from.Some? && m.from.value.id == userID
  }

  /** The plain message "/stats" from the operator. */
  predicate IsStatsCommand(u: Update, operatorID: int) {
    && u.message.Some?
    && u.message.value.text != ""
    && u.message.value.text == StatsCommand
    && SentBy(u.message.value, operatorID)
  }

  /** The update gets past the /stats check to the new-message branch. */
  predicate ReachesNew(u: Update, operatorID: int) {
    !IsStatsCommand(u, operatorID) && u.businessMessage.Some?
  }

  /** ... past the new-message branch to the edited-message branch. */
  predicate ReachesEdited(u: Update, operatorID: int) {
    !IsStatsCommand(u, operatorID) && u.businessMessage.None? && u.editedBusinessMessage.Some?
  }

  /** ... past the edited-message branch to the deleted-messages branch. */
  predicate ReachesDeleted(u: Update, operatorID: int) {
    && !IsStatsCommand(u, operatorID)
    && u.businessMessage.None?
    && u.editedBusinessMessage.None?
    && u.deletedBusinessMessages.Some?
  }

  /** ... past every branch. */
  predicate ReachesNothing(u: Update, operatorID: int) {
    && !IsStatsCommand(u, operatorID)
    && u.businessMessage.None?
    && u.editedBusinessMessage.None?
    && u.deletedBusinessMessages.None?
  }

  /** The body of an edit report, given the stored lookup for the message. */
  function EditBody(stored: (string, bool), newText: string, diff: (string, string) -> string): string {
    if stored.1 && stored.0 != "" then
      if stored.0 == newText then UnchangedBody else diff(stored.0, newText)
    else EscapeHTML(newText)
  }

  // ---------------------------------------------------------------------------
  // Deleted messages
  // ---------------------------------------------------------------------------

  /**
    Reference for the deletion reports, read off the store as it was before
    the update: one report per listed ID whose stored text is non-empty, in
    list order, and none for an ID already reported (`seen`).
   */
  function DeletionReports(s: MessageStore, conn: string, chatID: int, chatTitle: string, ids: seq<int>, seen: set<int>): seq<Notification>
    decreases |ids|
  {
    if |ids| == 0 then []
    else
      var text := Get(s, conn, chatID, ids[0]).0;
      if ids[0] in seen || text == "" then DeletionReports(s, conn, chatID, chatTitle, ids[1..], seen)
      else [DeleteReport(chatTitle, EscapeHTML(text))] + DeletionReports(s, conn, chatID, chatTitle, ids[1..], seen + {ids[0]})
  }

  /** The listed IDs whose stored text is non-empty. */
  function Reportable(s: MessageStore, conn: string, chatID: int, ids: seq<int>): set<int> {
    set i | i in ids && Get(s, conn, chatID, i).0 != ""
  }

  /**
    `r` is `s` with exactly the listed messages of the (conn, chat) scope
    that had non-empty text removed.
   */
  ghost predicate RemovedReportable(s: MessageStore, r: MessageStore, conn: string, chatID: int, ids: seq<int>) {
    forall c, ch, i :: Find(r, c, ch, i) ==
      if c == conn && ch == chatID && i in ids && Get(s, c, ch, i).0 != "" then None else Find(s, c, ch, i)
  }

  /**
    The loop over `MessageIDs`: look each one up; skip it when missing;
    when its text is non-empty report the escaped text and delete it; when
    its text is empty do neither.
   */
  function HandleDeletions(s: MessageStore, conn: string, chatID: int, chatTitle: string, ids: seq<int>): (r: (MessageStore, seq<Notification>))
    ensures r.1 == DeletionReports(s, conn, chatID, chatTitle, ids, {})
    ensures RemovedReportable(s, r.0, conn, chatID, ids)
    ensures r.0.messages.Keys == s.messages.Keys
    ensures r.0.ttl == s.ttl
    decreases |ids|
  {
    if |ids| == 0 then (s, [])
    else
      var messageID := ids[0];
      var stored := Get(s, conn, chatID, messageID);
      if !stored.1 then HandleDeletions(s, conn, chatID, chatTitle, ids[1..])
      else if stored.0 != "" then
        var notification := DeleteReport(chatTitle, EscapeHTML(stored.0));
        var s' := Delete(s, conn, chatID, messageID);
        var rest := HandleDeletions(s', conn, chatID, chatTitle, ids[1..]);
        DeletedIsSeen(s, conn, chatID, chatTitle, messageID, ids[1..], {});
        assert {} + {messageID} == {messageID};
        (rest.0, [notification] + rest.1)
      else HandleDeletions(s, conn, chatID, chatTitle, ids[1..])
  }

  /** Deleting a message first has the same effect on the reports as having already reported it. */
  lemma {:induction false} DeletedIsSeen(s: MessageStore, conn: string, chatID: int, chatTitle: string, x: int, ids: seq<int>, seen: set<int>)
    ensures DeletionReports(Delete(s, conn, chatID, x), conn, chatID, chatTitle, ids, seen)
         == DeletionReports(s, conn, chatID, chatTitle, ids, seen + {x})
    decreases |ids|
  {
    if |ids| > 0 {
      var y := ids[0];
      if y == x {
        DeletedIsSeen(s, conn, chatID, chatTitle, x, ids[1..], seen);
      } else {
        DeletedIsSeen(s, conn, chatID, chatTitle, x, ids[1..], seen);
        DeletedIsSeen(s, conn, chatID, chatTitle, x, ids[1..], seen + {y});
        assert seen + {y} + {x} == seen + {x} + {y};
      }
    }
  }

  /**
    One report per distinct listed ID with non-empty stored text, so an ID
    listed twice is reported once.
   */
  lemma {:induction false} DeletionReportCount(s: MessageStore, conn: string, chatID: int, chatTitle: string, ids: seq<int>, seen: set<int>)
    ensures |DeletionReports(s, conn, chatID, chatTitle, ids, seen)| == |Reportable(s, conn, chatID, ids) - seen|
    decreases |ids|
  {
    if |ids| == 0 {
      assert Reportable(s, conn, chatID, ids) == {};
    } else {
      var x, rest := ids[0], ids[1..];
      assert ids == [x] + rest;
      var all, later := Reportable(s, conn, chatID, ids), Reportable(s, conn, chatID, rest);
      if x in seen || Get(s, conn, chatID, x).0 == "" {
        assert all - seen == later - seen;
        DeletionReportCount(s, conn, chatID, chatTitle, rest, seen);
      } else {
        assert all - seen == {x} + (later - (seen + {x}));
        DeletionReportCount(s, conn, chatID, chatTitle, rest, seen + {x});
      }
    }
  }

  // ---------------------------------------------------------------------------
  // The dispatcher
  // ---------------------------------------------------------------------------

  /**
    handleUpdate. The branches are tried in order and only the first that
    applies runs: the operator's /stats, a new business message, an edited
    business message, deleted business messages; anything else is ignored.
   */
  function HandleUpdate(s: MessageStore, u: Update, operatorID: int, now: int, diff: (string, string) -> string): (o: Outcome)
    // No branch changes the TTL.
    ensures o.Handled? ==> o.store.ttl == s.ttl
    // /stats from the operator: the count, nothing stored.
    ensures IsStatsCommand(u, operatorID) ==> o == Handled(s, [StatsReport(Count(s))])
    // A new business message: never reported; saved exactly when it is not the operator's and has text.
    ensures ReachesNew(u, operatorID) ==>
      var m := u.businessMessage.value;
      && o.Handled? && o.sent == []
      && (SentBy(m, operatorID) || m.text == "" ==> o.store == s)
      && (!SentBy(m, operatorID) && m.text != "" ==>
            && Find(o.store, m.businessConnectionID, m.chat.id, m.id) == Some(StoredMessage(m.text, now))
            && SameElsewhere(s, o.store, m.businessConnectionID, m.chat.id, m.id)
            && o.store.messages.Keys == s.messages.Keys + {ScopeKey(m.businessConnectionID, m.chat.id)})
    // An edited business message.
    ensures ReachesEdited(u, operatorID) ==>
      var m := u.editedBusinessMessage.value;
      var stored := Get(s, m.businessConnectionID, m.chat.id, m.id);
      && (SentBy(m, operatorID) ==> o == Handled(s, []))
      && (m.from.None? ==> o.Crashed?)
      && (m.from.Some? && !SentBy(m, operatorID) ==>
            && o.Handled?
            && |o.sent| == 1
            && o.sent[0].EditReport?
            && o.sent[0].userName == UserName(m.from.value)
            && o.sent[0].chatTitle == ChatTitle(m.chat)
            && (stored.1 && stored.0 != "" && stored.0 == m.text ==> o.sent[0].body == UnchangedBody)
            && (stored.1 && stored.0 != "" && stored.0 != m.text ==> o.sent[0].body == diff(stored.0, m.text))
            && (!stored.1 || stored.0 == "" ==> o.sent[0].body == EscapeHTML(m.text))
            && Find(o.store, m.businessConnectionID, m.chat.id, m.id) == Some(StoredMessage(m.text, now))
            && SameElsewhere(s, o.store, m.businessConnectionID, m.chat.id, m.id)
            && o.store.messages.Keys == s.messages.Keys + {ScopeKey(m.businessConnectionID, m.chat.id)})
    // Deleted business messages.
    ensures ReachesDeleted(u, operatorID) ==>
      var d := u.deletedBusinessMessages.value;
      && o.Handled?
      && o.sent == DeletionReports(s, d.businessConnectionID, d.chat.id, ChatTitle(d.chat), d.messageIDs, {})
      && RemovedReportable(s, o.store, d.businessConnectionID, d.chat.id, d.messageIDs)
      && o.store.messages.Keys == s.messages.Keys
    // Nothing the dispatcher handles.
    ensures ReachesNothing(u, operatorID) ==> o == Handled(s, [])
  {
    if u.message.Some? && u.message.value.text != ""
      && u.message.value.text == StatsCommand && SentBy(u.message.value, operatorID) then
      Handled(s, [StatsReport(Count(s))])
    else if u.businessMessage.Some? then
      var msg := u.businessMessage.value;
      if SentBy(msg, operatorID) then Handled(s, [])
      else if msg.text != "" then Handled(Save(s, msg.businessConnectionID, msg.chat.id, msg.id, msg.text, now), [])
      else Handled(s, [])
    else if u.editedBusinessMessage.Some? then
      var edited := u.editedBusinessMessage.value;
      if SentBy(edited, operatorID) then Handled(s, [])
      else if edited.from.None? then Crashed
      else
        var chatTitle := ChatTitle(edited.chat);
        var userName := UserName(edited.from.value);
        var stored := Get(s, edited.businessConnectionID, edited.chat.id, edited.id);
        var notification := EditReport(userName, chatTitle, EditBody(stored, edited.text, diff));
        Handled(Save(s, edited.businessConnectionID, edited.chat.id, edited.id, edited.text, now), [notification])
    else if u.deletedBusinessMessages.Some? then
      var deleted := u.deletedBusinessMessages.value;
      var result := HandleDeletions(s, deleted.businessConnectionID, deleted.chat.id, ChatTitle(deleted.chat), deleted.messageIDs);
      Handled(result.0, result.1)
    else Handled(s, [])
  }

  // ---------------------------------------------------------------------------
  // Properties across updates
  // ---------------------------------------------------------------------------

  /** The plain message field matters only as the operator's /stats command; any other falls through. */
  lemma PlainMessageFallsThrough(s: MessageStore, u: Update, operatorID: int, now: int, diff: (string, string) -> string)
    requires !IsStatsCommand(u, operatorID)
    ensures HandleUpdate(s, u, operatorID, now, diff) == HandleUpdate(s, u.(message := None), operatorID, now, diff)
  {
  }

  function NewMessageUpdate(m: Message): Update {
    Update(None, Some(m), None, None)
  }

  function EditedMessageUpdate(m: Message): Update {
    Update(None, None, Some(m), None)
  }

  function DeletedMessagesUpdate(d: BusinessMessagesDeleted): Update {
    Update(None, None, None, Some(d))
  }

  predicate SameMessage(a: Message, b: Message) {
    a.businessConnectionID == b.businessConnectionID && a.chat.id == b.chat.id && a.id == b.id
  }

  /**
    Each edit is re-saved, so a second edit is compared with the first
    edit's text: unchanged when equal, a diff otherwise. An empty first edit
    counts as no original, so the second is then shown escaped in full.
   */
  lemma SecondEditComparedWithFirst(s: MessageStore, first: Message, second: Message, operatorID: int,
                                    t1: int, t2: int, diff: (string, string) -> string)
    requires first.from.Some? && !SentBy(first, operatorID)
    requires second.from.Some? && !SentBy(second, operatorID)
    requires SameMessage(first, second)
    ensures var o1 := HandleUpdate(s, EditedMessageUpdate(first), operatorID, t1, diff);
      && o1.Handled?
      && var o2 := HandleUpdate(o1.store, EditedMessageUpdate(second), operatorID, t2, diff);
      && o2.Handled?
      && o2.sent == [EditReport(UserName(second.from.value), ChatTitle(second.chat),
                               if first.text == "" then EscapeHTML(second.text)
                               else if first.text == second.text then UnchangedBody
                               else diff(first.text, second.text))]
      && Get(o2.store, second.businessConnectionID, second.chat.id, second.id) == (second.text, true)
  {
  }

  /** IDs that have all been reported already produce no further report. */
  lemma {:induction false} AllSeenNoReports(s: MessageStore, conn: string, chatID: int, chatTitle: string, ids: seq<int>, seen: set<int>)
    requires forall i :: i in ids ==> i in seen
    ensures DeletionReports(s, conn, chatID, chatTitle, ids, seen) == []
    decreases |ids|
  {
    if |ids| > 0 {
      assert ids[0] in ids;
      forall i | i in ids[1..] ensures i in seen {
        assert i in ids;
      }
      AllSeenNoReports(s, conn, chatID, chatTitle, ids[1..], seen);
    }
  }

  /**
    A message seen as new and later deleted is reported once, however many
    times the deletion lists it, with its text escaped, and is then gone.
   */
  lemma NewThenDeletedReportedOnce(s: MessageStore, m: Message, d: BusinessMessagesDeleted, operatorID: int,
                                   t1: int, t2: int, diff: (string, string) -> string)
    requires !SentBy(m, operatorID) && m.text != ""
    requires d.businessConnectionID == m.businessConnectionID && d.chat.id == m.chat.id
    requires |d.messageIDs| > 0 && forall i :: i in d.messageIDs ==> i == m.id
    ensures var o1 := HandleUpdate(s, NewMessageUpdate(m), operatorID, t1, diff);
      && o1.Handled?
      && var o2 := HandleUpdate(o1.store, DeletedMessagesUpdate(d), operatorID, t2, diff);
      && o2.Handled?
      && o2.sent == [DeleteReport(ChatTitle(d.chat), EscapeHTML(m.text))]
      && Get(o2.store, m.businessConnectionID, m.chat.id, m.id) == ("", false)
  {
    var o1 := HandleUpdate(s, NewMessageUpdate(m), operatorID, t1, diff);
    var conn, chatID, title := d.businessConnectionID, d.chat.id, ChatTitle(d.chat);
    var ids := d.messageIDs;
    assert ids[0] in ids;
    assert Get(o1.store, conn, chatID, m.id) == (m.text, true);
    forall i | i in ids[1..] ensures i in {} + {m.id} {
      assert i in ids;
    }
    AllSeenNoReports(o1.store, conn, chatID, title, ids[1..], {} + {m.id});
    assert DeletionReports(o1.store, conn, chatID, title, ids, {})
        == [DeleteReport(title, EscapeHTML(m.text))];
  }

  /** A deletion update sends one report per distinct listed message whose stored text is non-empty. */
  lemma DeletionNotificationCount(s: MessageStore, d: BusinessMessagesDeleted, operatorID: int, now: int,
                                  diff: (string, string) -> string)
    ensures var o := HandleUpdate(s, DeletedMessagesUpdate(d), operatorID, now, diff);
      o.Handled? && |o.sent| == |Reportable(s, d.businessConnectionID, d.chat.id, d.messageIDs)|
  {
    DeletionReportCount(s, d.businessConnectionID, d.chat.id, ChatTitle(d.chat), d.messageIDs, {});
    assert Reportable(s, d.businessConnectionID, d.chat.id, d.messageIDs) - {}
        == Reportable(s, d.businessConnectionID, d.chat.id, d.messageIDs);
  }
}
