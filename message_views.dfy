/**
 * The view state around the message list: the list's session, items and
 * focus; the reply target and the pile focus of the messages view; the
 * draft and caption of the prompt. Network tasks are not run here: an
 * operation that starts a fetch returns the `Fetch` it starts, and
 * `MessagesList.Deliver` is its completion callback; the send task is
 * returned as a `SendTask`, whose JSON body `ApiMessages.SendBody` gives.
 */
module MessageViews {
  import opened Wrappers
  import opened ApiMessages
  import opened Threads

  /** The prompt caption: the glyph shown with no reply target, or the one shown while replying. */
  datatype Caption = Idle | Replying

  /** The caption `reply_to` sets for a reply target. */
  function CaptionFor(replyId: Option<string>): Caption
  {
    if Truthy(replyId) then Replying else Idle
  }

  /** Which callback a fetch completes with: the session switch's (focus the last item) or the refresh's. */
  datatype Callback = FocusLast | KeepFocus

  /** A started fetch: the session it asks for and the callback its answer goes to. */
  datatype Fetch = Fetch(session: string, sessionType: string, callback: Callback)

  /** The arguments `Messages.send_message` hands to the send task. */
  datatype SendTask = SendTask(text: string, session: string, sessionType: string, replyId: Option<string>)

  /** `MessagesList`: a list box over the items of the current session. */
  class MessagesList {
    var session: string
    var sessionType: string
    var walker: seq<Item>
    var focus: nat
    const icons: Icons

    /** Fetches the session's messages (blocking), builds the items and focuses the last one. */
    constructor (icons: Icons, session: string, sessionType: string, api: MessageApi)
      ensures this.icons == icons && this.session == session && this.sessionType == sessionType
      ensures walker == Body(icons, GetMessages(api, session, sessionType))
      ensures walker != [] ==> focus == |walker| - 1
      ensures walker == [] ==> focus == 0
    {
      this.icons := icons;
      this.session := session;
      this.sessionType := sessionType;
      var messages := GetMessages(api, session, sessionType);
      walker := Body(icons, messages);
      focus := 0;
      new;
      SetPosition();
    }

    /** `set_position`: focus the last item; an empty list keeps its focus. */
    method SetPosition()
      modifies this`focus
      ensures walker != [] ==> focus == |walker| - 1
      ensures walker == [] ==> focus == old(focus)
    {
      var n := |walker|;
      if n > 0 {
        focus := n - 1;
      }
    }

    /** `update_walker`: the items are replaced wholesale by those built from `messages`. */
    method UpdateWalker(messages: seq<Message>)
      modifies this`walker
      ensures walker == Body(icons, messages)
    {
      walker := Body(icons, messages);
    }

    /** `update`: switch to another session and start a fetch that will focus the last item. */
    method Update(session: string, sessionType: string) returns (fetch: Fetch)
      modifies this`session, this`sessionType
      ensures this.session == session && this.sessionType == sessionType
      ensures fetch == Fetch(session, sessionType, FocusLast)
    {
      this.session := session;
      this.sessionType := sessionType;
      fetch := Fetch(this.session, this.sessionType, FocusLast);
    }

    /** `refresh`: start a fetch for the current session that leaves the focus alone. */
    method Refresh() returns (fetch: Fetch)
      ensures fetch == Fetch(session, sessionType, KeepFocus)
    {
      fetch := Fetch(session, sessionType, KeepFocus);
    }

    /**
     * A fetch completes: its answer, reordered oldest first, rebuilds the
     * items; the session switch's callback then focuses the last item and
     * the refresh's leaves the focus where it was. The fetch is applied
     * whichever session is current by then.
     */
    method Deliver(fetch: Fetch, api: MessageApi)
      modifies this`walker, this`focus
      ensures walker == Body(icons, AsyncGetMessages(api, fetch.session, fetch.sessionType))
      ensures fetch.callback == FocusLast && walker != [] ==> focus == |walker| - 1
      ensures fetch.callback == KeepFocus || walker == [] ==> focus == old(focus)
    {
      var messages := AsyncGetMessages(api, fetch.session, fetch.sessionType);
      match fetch.callback
      case FocusLast =>
        UpdateWalker(messages);
        SetPosition();
      case KeepFocus =>
        UpdateWalker(messages);
    }
  }

  /** `MessagesPrompt`: the draft being written and the caption in front of it. */
  class MessagesPrompt {
    var editText: string
    var caption: Caption

    constructor ()
      ensures editText == "" && caption == Idle
    {
      editText := "";
      caption := Idle;
    }

    /**
     * `keypress`: Enter sends (through the send callback of `owner`, the
     * messages view the prompt was built for) and then empties the draft.
     * Other keys go to the text editor, which is not modelled; they do not
     * touch the messages view.
     */
    method Keypress(key: string, owner: Messages) returns (task: Option<SendTask>)
      requires owner.prompt == this
      modifies this, owner
      ensures key == "enter" ==>
        task == Some(SendTask(old(editText), old(owner.session), old(owner.sessionType), old(owner.replyId))) &&
        editText == "" && caption == Idle && owner.replyId == None &&
        owner.session == old(owner.session) && owner.sessionType == old(owner.sessionType) &&
        owner.focusPosition == old(owner.focusPosition)
      ensures key != "enter" ==> task == None && caption == old(caption) && unchanged(owner)
    {
      if key == "enter" {
        var t := owner.SendMessage();
        task := Some(t);
        editText := "";
      } else {
        task := None;
      }
    }
  }

  /** `Messages`: the pile of header, message list and prompt, with the reply target. */
  class Messages {
    var session: string
    var sessionType: string
    var replyId: Option<string>
    var focusPosition: nat
    const list: MessagesList
    const prompt: MessagesPrompt

    /** The pile starts focused on its first selectable child, the message list (position 1). */
    constructor (icons: Icons, session: string, sessionType: string, api: MessageApi)
      ensures this.session == session && this.sessionType == sessionType && replyId == None
      ensures focusPosition == 1
      ensures fresh(list) && fresh(prompt)
      ensures list.icons == icons && list.session == session && list.sessionType == sessionType
      ensures list.walker == Body(icons, GetMessages(api, session, sessionType))
      ensures list.walker != [] ==> list.focus == |list.walker| - 1
      ensures prompt.editText == "" && prompt.caption == Idle
    {
      this.session := session;
      this.sessionType := sessionType;
      replyId := None;
      list := new MessagesList(icons, session, sessionType, api);
      prompt := new MessagesPrompt();
      focusPosition := 1;
    }

    /** `reply_to`: set the reply target and the caption, and focus the prompt when asked to. */
    method ReplyTo(replyId: Option<string>, focus: bool)
      modifies this`replyId, this`focusPosition, prompt`caption
      ensures this.replyId == replyId && prompt.caption == CaptionFor(replyId)
      ensures focus ==> focusPosition == 2
      ensures !focus ==> focusPosition == old(focusPosition)
    {
      this.replyId := replyId;
      prompt.caption := CaptionFor(replyId);
      if focus {
        focusPosition := 2;
      }
    }

    /** The list's select callback: pressing a message button replies to that message and focuses the prompt. */
    method Select(button: Button)
      modifies this`replyId, this`focusPosition, prompt`caption
      ensures replyId == Some(button.userData.id) && focusPosition == 2
      ensures prompt.caption == CaptionFor(Some(button.userData.id))
    {
      ReplyTo(Some(button.userData.id), true);
    }

    /**
     * `send_message`: the draft, the session and the reply target are
     * captured for the send task, then the reply target is cleared
     * whatever becomes of the send.
     */
    method SendMessage() returns (task: SendTask)
      modifies this`replyId, this`focusPosition, prompt`caption
      ensures task == SendTask(prompt.editText, session, sessionType, old(replyId))
      ensures replyId == None && prompt.caption == Idle && focusPosition == old(focusPosition)
    {
      task := SendTask(prompt.editText, session, sessionType, replyId);
      ReplyTo(None, false);
    }

    /**
     * `keypress`: Ctrl-X clears the reply target; any other key goes to the
     * focused child, and when that is the prompt (position 2) the prompt
     * handles it. Keys for the list are not modelled.
     */
    method Keypress(key: string) returns (task: Option<SendTask>)
      modifies this, prompt
      ensures key == "ctrl x" ==>
        task == None && replyId == None && prompt.caption == Idle &&
        session == old(session) && sessionType == old(sessionType) &&
        focusPosition == old(focusPosition) && prompt.editText == old(prompt.editText)
      ensures key != "ctrl x" && old(focusPosition) == 2 && key == "enter" ==>
        task == Some(SendTask(old(prompt.editText), old(session), old(sessionType), old(replyId))) &&
        prompt.editText == "" && replyId == None && prompt.caption == Idle &&
        session == old(session) && sessionType == old(sessionType) && focusPosition == old(focusPosition)
      ensures key != "ctrl x" && old(focusPosition) == 2 && key != "enter" ==>
        task == None && replyId == old(replyId) && prompt.caption == old(prompt.caption) &&
        session == old(session) && sessionType == old(sessionType)
    {
      if key == "ctrl x" {
        ReplyTo(None, false);
        task := None;
      } else if focusPosition == 2 {
        task := prompt.Keypress(key, this);
      } else {
        task := None;
      }
    }

    /** `update`: switch the view and its list to another session; the list starts a focus-resetting fetch. */
    method Update(session: string, sessionType: string) returns (fetch: Fetch)
      modifies this`session, this`sessionType, list`session, list`sessionType
      ensures this.session == session && this.sessionType == sessionType
      ensures list.session == session && list.sessionType == sessionType
      ensures fetch == Fetch(session, sessionType, FocusLast)
    {
      this.session := session;
      this.sessionType := sessionType;
      fetch := list.Update(this.session, this.sessionType);
    }
  }
}
