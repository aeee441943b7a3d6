/**
 * The message list of one chat: the items it displays, each of which builds
 * its content lazily, refreshes the parts a change notification names,
 * subscribes to the contacts of its transmissions and answers searches; and
 * the list's own reaction to changes of its chat.
 */
module MessageList {
  import opened Wrappers
  import opened Text
  import opened Messages
  import opened MessageDisplay
  import opened ComponentUtils

  // ================================================================ attachment

  /** The link text for a local file: its file name, unless a preview image already shows it. */
  function LinkText(att: Attachment): (r: string)
    ensures att.imagePath == "" ==> r == FileName(att.filePath)
    ensures att.imagePath != "" ==> r == ""
  {
    if att.imagePath == "" then FileName(att.filePath) else ""
  }

  /**
   * The attachment panel after showing `att`: the preview image, then a link
   * to the downloaded file, or, while there is no file, the download status.
   */
  function ShowAttachment(p: PanelState, att: Attachment): (r: PanelState)
    ensures r.imagePath == att.imagePath
    ensures r.imageLoads == if att.imagePath == p.imagePath then p.imageLoads else p.imageLoads + [att.imagePath]
    ensures att.filePath != "" ==> r.linkTarget == att.filePath && r.status == ""
    ensures att.filePath != "" ==> (r.linkText == "" <==> att.imagePath != "" || FileName(att.filePath) == "")
    ensures att.filePath != "" ==> r.linkText == LinkText(att)
    ensures att.filePath == "" ==> (r.linkText, r.linkTarget) == (p.linkText, p.linkTarget)
    ensures att.filePath == "" ==> r.status == AttachmentPrefix + ProgressText(att.progress)
  {
    var withImage := WithImage(p, att.imagePath);
    if att.filePath != "" then WithLink(withImage, LinkText(att), att.filePath)
    else WithStatus(withImage, ProgressText(att.progress))
  }

  /** Showing the same attachment again changes nothing; in particular the image is not loaded twice. */
  lemma ShowAttachmentIdempotent(p: PanelState, att: Attachment)
    ensures ShowAttachment(ShowAttachment(p, att), att) == ShowAttachment(p, att)
  {
  }

  /** Once the file is there, the link replaces any download status shown before. */
  lemma DownloadedFileReplacesStatus(p: PanelState, pending: Attachment, done: Attachment)
    requires pending.filePath == "" && done.filePath != ""
    ensures ShowAttachment(ShowAttachment(p, pending), done).status == ""
    ensures ShowAttachment(ShowAttachment(p, pending), done).linkTarget == done.filePath
  {
  }

  // ================================================================ search

  /** A contact matches a search when its lower-cased name or JID contains it. */
  predicate ContactMatches(c: Contact, search: string) {
    ContainsSlice(Lower(c.name), search) || ContainsSlice(Lower(c.jid), search)
  }

  /** A message matches a search when its lower-cased text, or a contact of one of its transmissions, does. */
  predicate Matches(m: Message, search: string) {
    ContainsSlice(Lower(m.text), search)
    || exists i | 0 <= i < |m.transmissions| :: ContactMatches(m.transmissions[i].contact, search)
  }

  /** A slice of a string that contains `s + t` also contains `s`. */
  lemma ContainsPrefixOfNeedle(hay: string, s: string, t: string)
    requires ContainsSlice(hay, s + t)
    ensures ContainsSlice(hay, s)
  {
    var i :| 0 <= i <= |hay| - |s + t| && OccursAt(hay, s + t, i);
    assert hay[i..i + |s|] == (s + t)[..|s|] == s;
    assert OccursAt(hay, s, i);
  }

  /** Typing more of a search never brings a message back: every match of a longer search matches its prefix. */
  lemma {:induction false} LongerSearchNarrows(m: Message, s: string, t: string)
    requires Matches(m, s + t)
    ensures Matches(m, s)
  {
    if ContainsSlice(Lower(m.text), s + t) {
      ContainsPrefixOfNeedle(Lower(m.text), s, t);
    } else {
      var i :| 0 <= i < |m.transmissions| && ContactMatches(m.transmissions[i].contact, s + t);
      var c := m.transmissions[i].contact;
      if ContainsSlice(Lower(c.name), s + t) {
        ContainsPrefixOfNeedle(Lower(c.name), s, t);
      } else {
        ContainsPrefixOfNeedle(Lower(c.jid), s, t);
      }
      assert ContactMatches(m.transmissions[i].contact, s);
    }
  }

  /** The empty search matches every message. */
  lemma EmptySearchMatchesAll(m: Message)
    ensures Matches(m, "")
  {
    assert OccursAt(Lower(m.text), "", 0);
  }

  // ================================================================ ordering

  /** `Integer.compare` and `Date.compareTo`: -1, 0 or 1. */
  function Compare(a: int, b: int): (r: int)
    ensures -1 <= r <= 1
    ensures r < 0 <==> a < b
    ensures r == 0 <==> a == b
  {
    if a < b then -1 else if a == b then 0 else 1
  }

  /**
   * The order of two items as the item's comparison computes it: the date
   * comparison compares the item's own date with itself, so it is always 0
   * and the order is the order of the message ids.
   */
  function CompareAsWritten(a: Message, b: Message): (r: int)
    ensures r == Compare(a.id, b.id)
    ensures r < 0 <==> a.id < b.id
  {
    var idComp := Compare(a.id, b.id);
    var dateComp := Compare(a.date, a.date);
    if idComp == 0 || dateComp == 0 then idComp else dateComp
  }

  /**
   * The evidently intended order: the same message compares equal, messages
   * of the same date go by id, all others by date.
   */
  function CompareItems(a: Message, b: Message): (r: int)
    ensures a.id == b.id ==> r == 0
    ensures a.id != b.id ==> (r < 0 <==> a.date < b.date || (a.date == b.date && a.id < b.id))
    ensures a.id != b.id ==> r != 0
  {
    var idComp := Compare(a.id, b.id);
    var dateComp := Compare(a.date, b.date);
    if idComp == 0 || dateComp == 0 then idComp else dateComp
  }

  /** Swapping the arguments negates the intended comparison. */
  lemma CompareItemsAntisymmetric(a: Message, b: Message)
    ensures CompareItems(a, b) == -CompareItems(b, a)
  {
  }

  /** The intended comparison is transitive on messages whose id determines their date. */
  lemma CompareItemsTransitive(a: Message, b: Message, c: Message)
    requires a.id == c.id ==> a.date == c.date
    requires CompareItems(a, b) < 0 && CompareItems(b, c) < 0
    ensures CompareItems(a, c) < 0
  {
  }

  function Stamped(id: int, date: Date): Message {
    Message(id, Outbound, Pending, NotEncrypted, NotSigned, [], "", date, None, "", None, None, [], "", "")
  }

  /** A newer message with a smaller id is placed before an older one as written, after it as intended. */
  lemma NewerMessageWithSmallerIdFirst()
    ensures CompareAsWritten(Stamped(1, 5), Stamped(2, 3)) < 0
    ensures CompareItems(Stamped(1, 5), Stamped(2, 3)) > 0
  {
  }

  // ================================================================ message items

  /** One displayed message. */
  class MessageItem {
    var msg: Message
    var created: bool
    var view: ItemView
    var attPanel: AttachmentPanel?
    /** The contacts (by id) this item observes. */
    var subscriptions: set<int>

    ghost predicate Valid()
      reads this
    {
      subscriptions <= ContactIds(msg.transmissions)
      && (!created ==> subscriptions == {} && attPanel == null)
    }

    /** A consistent item for `m` whose content is not built yet. */
    ghost predicate Unbuilt(m: Message)
      reads this
    {
      Valid() && msg == m && !created
    }

    /** The attachment panel, if there is one. */
    function Panel(): Option<PanelState>
      reads this, attPanel
    {
      if attPanel == null then None else Some(attPanel.State())
    }

    constructor (m: Message)
      ensures Unbuilt(m) && subscriptions == {} && attPanel == null
    {
      msg := m;
      created := false;
      view := BlankView(m);
      attPanel := null;
      subscriptions := {};
    }

    /** Build the content once, refresh all of it and observe every transmission's contact. */
    method CreateContent(fmt: DateFormat)
      requires Valid()
      modifies this
      ensures Valid() && created && msg == old(msg)
      ensures old(created) ==> unchanged(this)
      ensures !old(created) ==> subscriptions == ContactIds(msg.transmissions)
      ensures !old(created) ==> view == Refresh(BlankView(msg), msg, fmt, None)
      ensures !old(created) ==> Panel() == if msg.attachment.Some? then Some(ShowAttachment(EmptyPanel, msg.attachment.value)) else None
    {
      if created {
        return;
      }
      created := true;
      view := BlankView(msg);
      RefreshParts(None, fmt);
      Subscribe();
    }

    /** Observe the contact of every transmission. */
    method Subscribe()
      requires subscriptions == {}
      modifies this
      ensures subscriptions == ContactIds(msg.transmissions)
      ensures msg == old(msg) && created == old(created) && view == old(view) && attPanel == old(attPanel)
    {
      var ts := msg.transmissions;
      var i := 0;
      while i < |ts|
        invariant 0 <= i <= |ts|
        invariant subscriptions == ContactIds(ts[..i])
        invariant msg == old(msg) && created == old(created) && view == old(view) && attPanel == old(attPanel)
      {
        ContactIdsStep(ts, i);
        subscriptions := subscriptions + {ts[i].contact.id};
        i := i + 1;
      }
      assert ts[..i] == ts;
    }

    /** A change of the message (now `m`) or of one of its contacts, of kind `arg`. */
    method UpdateOnEDT(m: Message, arg: Option<Delta>, fmt: DateFormat)
      requires Valid()
      requires m.id == msg.id && ContactIds(m.transmissions) == ContactIds(msg.transmissions)
      modifies this, attPanel
      ensures old(attPanel) != null ==> attPanel == old(attPanel)
      ensures Valid() && msg == m && created == old(created) && subscriptions == old(subscriptions)
      ensures !created ==> view == old(view) && attPanel == old(attPanel)
      ensures created ==> view == Refresh(old(view), m, fmt, arg)
      ensures created && AttachmentPart in RefreshedParts(arg) && m.attachment.Some? ==>
        Panel() == Some(ShowAttachment(old(Panel()).GetOr(EmptyPanel), m.attachment.value))
      ensures !(created && AttachmentPart in RefreshedParts(arg) && m.attachment.Some?) ==>
        attPanel == old(attPanel) && Panel() == old(Panel())
    {
      msg := m;
      if !created {
        return;
      }
      RefreshParts(arg, fmt);
    }

    /** The refresh of a built item: the parts `arg` names, the attachment last. */
    method RefreshParts(arg: Option<Delta>, fmt: DateFormat)
      requires created && Valid()
      modifies this, attPanel
      ensures old(attPanel) != null ==> attPanel == old(attPanel)
      ensures Valid() && msg == old(msg) && created && subscriptions == old(subscriptions)
      ensures view == Refresh(old(view), msg, fmt, arg)
      ensures AttachmentPart in RefreshedParts(arg) && msg.attachment.Some? ==>
        Panel() == Some(ShowAttachment(old(Panel()).GetOr(EmptyPanel), msg.attachment.value))
      ensures !(AttachmentPart in RefreshedParts(arg) && msg.attachment.Some?) ==>
        attPanel == old(attPanel) && Panel() == old(Panel())
    {
      var refreshed := Refresh(view, msg, fmt, arg);
      if AttachmentPart in RefreshedParts(arg) {
        UpdateAttachment();
      }
      view := refreshed;
    }

    /** Show the message's attachment, creating the panel on first use. */
    method UpdateAttachment()
      modifies this, attPanel
      ensures old(attPanel) != null ==> attPanel == old(attPanel)
      ensures msg == old(msg) && created == old(created) && view == old(view) && subscriptions == old(subscriptions)
      ensures msg.attachment.Some? ==> Panel() == Some(ShowAttachment(old(Panel()).GetOr(EmptyPanel), msg.attachment.value))
      ensures msg.attachment.None? ==> attPanel == old(attPanel) && Panel() == old(Panel())
    {
      if msg.attachment.None? {
        return;
      }
      var att := msg.attachment.value;
      if attPanel == null {
        attPanel := new AttachmentPanel();
      }
      attPanel.SetImage(att.imagePath);
      if att.filePath != "" {
        attPanel.SetLink(LinkText(att), att.filePath);
      } else {
        attPanel.SetStatus(ProgressText(att.progress));
      }
    }

    /** Whether the item matches a search string. */
    method Contains(search: string) returns (b: bool)
      ensures b <==> Matches(msg, search)
    {
      if ContainsSlice(Lower(msg.text), search) {
        return true;
      }
      var ts := msg.transmissions;
      var i := 0;
      while i < |ts|
        invariant 0 <= i <= |ts|
        invariant forall j :: 0 <= j < i ==> !ContactMatches(ts[j].contact, search)
      {
        var c := ts[i].contact;
        if ContainsSlice(Lower(c.name), search) || ContainsSlice(Lower(c.jid), search) {
          assert ContactMatches(ts[i].contact, search);
          return true;
        }
        i := i + 1;
      }
      return false;
    }

    /** Stop observing every transmission's contact. */
    method OnRemove()
      requires Valid()
      modifies this
      ensures Valid() && subscriptions == {}
      ensures msg == old(msg) && created == old(created) && view == old(view) && attPanel == old(attPanel)
    {
      var ts := msg.transmissions;
      var i := 0;
      while i < |ts|
        invariant 0 <= i <= |ts|
        invariant subscriptions == old(subscriptions) - ContactIds(ts[..i])
        invariant msg == old(msg) && created == old(created) && view == old(view) && attPanel == old(attPanel)
      {
        ContactIdsStep(ts, i);
        subscriptions := subscriptions - {ts[i].contact.id};
        i := i + 1;
      }
      assert ts[..i] == ts;
    }
  }

  // ================================================================ the list

  /** The ids of some messages. */
  function Ids(ms: seq<Message>): (r: set<int>)
    ensures forall i :: 0 <= i < |ms| ==> ms[i].id in r
    ensures forall id :: id in r ==> exists i :: 0 <= i < |ms| && ms[i].id == id
  {
    set i | 0 <= i < |ms| :: ms[i].id
  }

  /** The messages of `all`, in order, that no displayed item (with ids `shown`) holds yet. */
  function NewMessages(all: seq<Message>, shown: set<int>): (r: seq<Message>)
    ensures |r| <= |all|
  {
    if all == [] then []
    else
      var rest := NewMessages(all[1..], shown);
      if all[0].id in shown then rest else [all[0]] + rest
  }

  /** The new messages are exactly the messages of `all` not displayed yet. */
  lemma {:induction false} NewMessagesExactly(all: seq<Message>, shown: set<int>)
    ensures forall m :: m in NewMessages(all, shown) <==> m in all && m.id !in shown
  {
    if all != [] {
      NewMessagesExactly(all[1..], shown);
      assert forall m :: m in all <==> m == all[0] || m in all[1..];
    }
  }

  /** Once the new messages are displayed too, no message of `all` is new any more. */
  lemma {:induction false} NewMessagesThenNone(all: seq<Message>, shown: set<int>)
    ensures NewMessages(all, shown + Ids(NewMessages(all, shown))) == []
  {
    var r := NewMessages(all, shown);
    NewMessagesExactly(all, shown);
    forall i | 0 <= i < |all| ensures all[i].id in shown + Ids(r) {
      if all[i].id !in shown {
        assert all[i] in all;
        var k :| 0 <= k < |r| && r[k] == all[i];
      }
    }
    NoneNewWhenAllShown(all, shown + Ids(r));
  }

  /** When every message is displayed, none is new. */
  lemma {:induction false} NoneNewWhenAllShown(all: seq<Message>, shown: set<int>)
    requires forall i :: 0 <= i < |all| ==> all[i].id in shown
    ensures NewMessages(all, shown) == []
  {
    if all != [] {
      assert forall i :: 0 <= i < |all[1..]| ==> all[1..][i] == all[i + 1];
      NoneNewWhenAllShown(all[1..], shown);
    }
  }

  /** Chat view settings (background colour and image) a list's background is created from. */
  datatype ViewSettings = ViewSettings(color: int, imagePath: string)

  /**
   * A change notification of the chat, by the kind of its argument (`None`:
   * `null`): its members, its subject, its read flag, a chat state, its view
   * settings, a new message, or anything else.
   */
  datatype ChatChange =
    | MembersChange
    | SubjectChange
    | ReadChange
    | ChatStateChange
    | SettingsChange(settings: ViewSettings)
    | NewMessage(msg: Message)
    | OtherChange

  /** The chat changes the list has nothing to do for. */
  predicate NothingToDo(arg: Option<ChatChange>) {
    arg.Some? && (arg.value.MembersChange? || arg.value.SubjectChange? || arg.value.ReadChange? || arg.value.ChatStateChange?)
  }

  /** What the list's reaction to a chat change asks of its surroundings. */
  datatype Reaction = Reaction(scroll: bool, markRead: bool, repaint: bool)

  class MessageList {
    /** The items displayed, in the order of the chat's messages. */
    var items: seq<MessageItem>
    /** The settings the current background was created from. */
    var background: Option<ViewSettings>

    constructor (settings: ViewSettings)
      ensures items == [] && background == Some(settings)
    {
      items := [];
      background := Some(settings);
    }

    function ShownIds(): (r: set<int>)
      reads this, items
      ensures forall i :: 0 <= i < |items| ==> items[i].msg.id in r
    {
      set i | 0 <= i < |items| :: items[i].msg.id
    }

    /** Every id among the displayed ones is the id of some item's message. */
    lemma ShownIdsExactly()
      ensures forall id :: id in ShownIds() <==> exists i :: 0 <= i < |items| && items[i].msg.id == id
    {
    }

    /** Whether an item displays the message with this id. */
    method ContainsValue(id: int) returns (b: bool)
      ensures b <==> id in ShownIds()
    {
      var j := 0;
      while j < |items|
        invariant 0 <= j <= |items|
        invariant forall k :: 0 <= k < j ==> items[k].msg.id != id
      {
        if items[j].msg.id == id {
          return true;
        }
        j := j + 1;
      }
      return false;
    }

    /** A new item for every message of `all` not displayed yet; the caller merges them into the table. */
    method InsertMessages(all: seq<Message>) returns (newItems: seq<MessageItem>, scroll: bool)
      ensures |newItems| == |NewMessages(all, ShownIds())|
      ensures forall k :: 0 <= k < |newItems| ==> fresh(newItems[k]) && newItems[k].Unbuilt(NewMessages(all, ShownIds())[k])
      ensures scroll <==> newItems != []
    {
      newItems := [];
      scroll := false;
      ghost var shown := ShownIds();
      ghost var chosen: seq<Message> := [];
      var i := 0;
      while i < |all|
        invariant 0 <= i <= |all|
        invariant shown == ShownIds()
        invariant chosen == NewMessages(all[..i], shown)
        invariant |newItems| == |chosen|
        invariant forall k :: 0 <= k < |newItems| ==> fresh(newItems[k]) && newItems[k].Unbuilt(chosen[k])
        invariant scroll <==> newItems != []
      {
        NewMessagesStep(all, i, shown);
        var displayed := ContainsValue(all[i].id);
        if !displayed {
          var item := new MessageItem(all[i]);
          assert forall k :: 0 <= k < |newItems| ==> newItems[k] != item;
          newItems := newItems + [item];
          chosen := chosen + [all[i]];
          scroll := true;
        }
        i := i + 1;
      }
      assert all[..i] == all;
      assert ShownIds() == shown;
    }

    /** The list's reaction to a change of its chat; `all` are the chat's messages. */
    method UpdateOnEDT(arg: Option<ChatChange>, all: seq<Message>, isCurrentChat: bool)
      returns (newItems: seq<MessageItem>, reaction: Reaction)
      modifies this
      ensures items == old(items)
      ensures NothingToDo(arg) ==> newItems == [] && reaction == Reaction(false, false, false) && background == old(background)
      ensures arg.Some? && arg.value.SettingsChange? ==>
        newItems == [] && background == Some(arg.value.settings) && reaction == Reaction(false, false, isCurrentChat)
      ensures !(arg.Some? && arg.value.SettingsChange?) ==> background == old(background)
      ensures arg.Some? && arg.value.NewMessage? ==>
        |newItems| == 1 && fresh(newItems[0]) && newItems[0].Unbuilt(arg.value.msg)
        && reaction == Reaction(true, isCurrentChat, false)
      ensures (arg.None? || arg.value.OtherChange?) && |items| < |all| ==>
        |newItems| == |NewMessages(all, ShownIds())|
        && (forall k :: 0 <= k < |newItems| ==> fresh(newItems[k]) && newItems[k].Unbuilt(NewMessages(all, ShownIds())[k]))
        && reaction == Reaction(newItems != [], isCurrentChat, false)
      ensures (arg.None? || arg.value.OtherChange?) && |items| >= |all| ==>
        newItems == [] && reaction == Reaction(false, isCurrentChat, false)
    {
      newItems := [];
      reaction := Reaction(false, false, false);
      if NothingToDo(arg) {
        return;
      }
      if arg.Some? && arg.value.SettingsChange? {
        background := Some(arg.value.settings);
        reaction := reaction.(repaint := isCurrentChat);
        return;
      }
      if arg.Some? && arg.value.NewMessage? {
        var item := new MessageItem(arg.value.msg);
        newItems := [item];
        reaction := reaction.(scroll := true);
      } else if |items| < |all| {
        var scroll;
        newItems, scroll := InsertMessages(all);
        reaction := reaction.(scroll := scroll);
      }
      reaction := reaction.(markRead := isCurrentChat);
    }
  }

  /** Looking at one more message adds it to the new messages exactly when it is not displayed. */
  lemma NewMessagesStep(all: seq<Message>, i: int, shown: set<int>)
    requires 0 <= i < |all|
    ensures NewMessages(all[..i + 1], shown) ==
      NewMessages(all[..i], shown) + (if all[i].id in shown then [] else [all[i]])
  {
    NewMessagesAppend(all[..i], [all[i]], shown);
    assert all[..i] + [all[i]] == all[..i + 1];
    assert [all[i]][1..] == [];
  }

  /** The new messages of two lists one after the other are the new messages of each. */
  lemma {:induction false} NewMessagesAppend(a: seq<Message>, b: seq<Message>, shown: set<int>)
    ensures NewMessages(a + b, shown) == NewMessages(a, shown) + NewMessages(b, shown)
  {
    if a != [] {
      assert (a + b)[1..] == a[1..] + b;
      NewMessagesAppend(a[1..], b, shown);
    } else {
      assert a + b == b;
    }
  }
}
