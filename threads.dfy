/**
 * The pure part of the message list: how a fetched, oldest-first list of
 * message records becomes list items. Top-level messages become items in
 * fetched order; each item holds the replies addressed to its message; a
 * sender header is left out when the previous message has the same sender;
 * attachments add one marker each to the text. The MIME lookup and the two
 * marker glyphs are parameters (`Icons`).
 */
module Threads {
  import opened Wrappers
  import Strings
  import opened ApiMessages

  /** A piece of text markup; the sender header is drawn in the accent style. */
  datatype Segment = Plain(text: string) | Accent(text: string)

  type Markup = seq<Segment>

  /**
   * The outside pieces of the rendering: `guessType` is the first
   * component of `mimetypes.guess_type` (`None` for an unknown type),
   * `image` and `file` the two attachment markers.
   */
  datatype Icons = Icons(guessType: string -> Option<string>, image: string, file: string)

  /** `is_image`: the guessed MIME type is known and starts with `image/`. */
  predicate IsImage(icons: Icons, fileName: string)
  {
    var mime := icons.guessType(fileName);
    mime.Some? && Strings.StartsWith(mime.value, "image/")
  }

  /** The marker of one attached file. */
  function Marker(icons: Icons, fileName: string): string
  {
    if IsImage(icons, fileName) then icons.image else icons.file
  }

  /** One marker per attached file, in order. */
  function Markers(icons: Icons, files: seq<string>): seq<string>
  {
    seq(|files|, k requires 0 <= k < |files| => Marker(icons, files[k]))
  }

  /** The text of a message once `message['message'] += ...` has appended its attachment markers. */
  function Decorated(icons: Icons, m: Message): string
  {
    match m.files
    case None => m.text
    case Some(files) => m.text + " " + Strings.Join(" ", Markers(icons, files))
  }

  /** The text all segments of a markup show, in order. */
  function Shown(markup: Markup): string
  {
    if markup == [] then "" else markup[0].text + Shown(markup[1..])
  }

  /** `last and last['sender_display_name'] == message['sender_display_name']`. */
  predicate SameSender(last: Option<Message>, m: Message)
  {
    last.Some? && last.value.sender == m.sender
  }

  /** A message button: its label, and the (decorated) record it hands to the select callback. */
  datatype Button = Button(markup: Markup, userData: Message)

  /** `MessageButton.__init__`: the label of a top-level message, `last` being the previous top-level message. */
  function MessageButton(icons: Icons, m: Message, last: Option<Message>): Button
  {
    var text := Decorated(icons, m);
    Button(
      if SameSender(last, m) then [Plain(text)] else [Accent(m.sender + "\n"), Plain(text)],
      m.(text := text))
  }

  /** `MessageItem.reply`: the markup of one reply, `last` being the previous reply of the same thread. */
  function Reply(icons: Icons, m: Message, last: Option<Message>): Markup
  {
    var text := Decorated(icons, m);
    if SameSender(last, m) then [Plain("\n" + text)]
    else [Accent(if last.Some? then "\n" + m.sender + "\n" else m.sender + "\n"), Plain(text)]
  }

  /** The replies of a thread rendered in order, each against the reply before it. */
  function ReplyTexts(icons: Icons, replies: seq<Message>): seq<Markup>
  {
    seq(|replies|, i requires 0 <= i < |replies| =>
      Reply(icons, replies[i], if i > 0 then Some(replies[i - 1]) else None))
  }

  /** The pile of a list item: the button, and the indented reply text when the thread has replies. */
  datatype Item = Item(button: Button, replies: Option<seq<Markup>>)

  /** The messages without `reply_main_message_id`, in order. */
  function TopLevel(messages: seq<Message>): (r: seq<Message>)
    ensures forall m :: m in r <==> m in messages && m.replyTo.None?
    decreases |messages|
  {
    if messages == [] then []
    else (if messages[0].replyTo.None? then [messages[0]] else []) + TopLevel(messages[1..])
  }

  /** The messages whose `reply_main_message_id` is `id`, in order. */
  function RepliesOf(id: string, messages: seq<Message>): (r: seq<Message>)
    ensures forall m :: m in r <==> m in messages && m.replyTo == Some(id)
    decreases |messages|
  {
    if messages == [] then []
    else (if messages[0].replyTo == Some(id) then [messages[0]] else []) + RepliesOf(id, messages[1..])
  }

  /** `MessageItem.__init__`: the item of message `m`, `last` being the previous top-level message. */
  function MessageItem(icons: Icons, m: Message, last: Option<Message>, messages: seq<Message>): Item
  {
    var body := MessageButton(icons, m, last);
    if m.replyTo.None? then
      var replies := RepliesOf(m.id, messages);
      if |replies| > 0 then Item(body, Some(ReplyTexts(icons, replies))) else Item(body, None)
    else Item(body, None)
  }

  /** The list items built from a fetched list (`non_replies` and `body`). */
  function Body(icons: Icons, messages: seq<Message>): seq<Item>
  {
    Items(icons, TopLevel(messages), messages)
  }

  /** One item per root, each built against the root before it (the `enumerate` of the comprehension). */
  function Items(icons: Icons, roots: seq<Message>, messages: seq<Message>): seq<Item>
  {
    seq(|roots|, i requires 0 <= i < |roots| =>
      MessageItem(icons, roots[i], if i > 0 then Some(roots[i - 1]) else None, messages))
  }

  // ---------------------------------------------------------------------
  // Filtering keeps order and multiplicity.

  /** Selecting the top-level messages of two lists one after the other is selecting them from the whole. */
  lemma {:induction false} TopLevelAppend(a: seq<Message>, b: seq<Message>)
    ensures TopLevel(a + b) == TopLevel(a) + TopLevel(b)
    decreases |a|
  {
    if a == [] {
      assert a + b == b;
    } else {
      assert (a + b)[1..] == a[1..] + b;
      TopLevelAppend(a[1..], b);
    }
  }

  /** Selecting the replies to `id` of two lists one after the other is selecting them from the whole. */
  lemma {:induction false} RepliesOfAppend(id: string, a: seq<Message>, b: seq<Message>)
    ensures RepliesOf(id, a + b) == RepliesOf(id, a) + RepliesOf(id, b)
    decreases |a|
  {
    if a == [] {
      assert a + b == b;
    } else {
      assert (a + b)[1..] == a[1..] + b;
      RepliesOfAppend(id, a[1..], b);
    }
  }

  /** Appending one message adds it to the top-level messages exactly when it has no reply target. */
  lemma TopLevelSnoc(messages: seq<Message>, m: Message)
    ensures TopLevel(messages + [m]) == TopLevel(messages) + (if m.replyTo.None? then [m] else [])
  {
    TopLevelAppend(messages, [m]);
    assert [m][1..] == [];
  }

  // ---------------------------------------------------------------------
  // The items.

  /** There is one item per top-level message. */
  lemma BodyLength(icons: Icons, messages: seq<Message>)
    ensures |Body(icons, messages)| == |TopLevel(messages)|
  {
  }

  /**
   * Item `i` is the item of top-level message `i`, in fetched order: it
   * carries that message's record (with its markers appended); its label
   * has the sender header exactly unless the previous top-level message
   * has the same sender, and the first item has no previous one.
   */
  lemma BodyButton(icons: Icons, messages: seq<Message>, i: nat)
    requires i < |TopLevel(messages)|
    ensures var roots, body := TopLevel(messages), Body(icons, messages);
      var text := Decorated(icons, roots[i]);
      i < |body| &&
      body[i].button.userData == roots[i].(text := text) &&
      (if i > 0 && roots[i - 1].sender == roots[i].sender
       then body[i].button.markup == [Plain(text)]
       else body[i].button.markup == [Accent(roots[i].sender + "\n"), Plain(text)])
  {
    ItemButton(icons, TopLevel(messages), messages, i);
  }

  /** `BodyButton` for any list of roots. */
  lemma ItemButton(icons: Icons, roots: seq<Message>, messages: seq<Message>, i: nat)
    requires i < |roots|
    ensures var items, text := Items(icons, roots, messages), Decorated(icons, roots[i]);
      i < |items| &&
      items[i].button.userData == roots[i].(text := text) &&
      (if i > 0 && roots[i - 1].sender == roots[i].sender
       then items[i].button.markup == [Plain(text)]
       else items[i].button.markup == [Accent(roots[i].sender + "\n"), Plain(text)])
  {
    var items := Items(icons, roots, messages);
    assert items[i] == MessageItem(icons, roots[i], if i > 0 then Some(roots[i - 1]) else None, messages);
  }

  /**
   * The replies of item `i` are the replies to its message, in fetched
   * order: a message with no replies gives a pile holding only its button,
   * otherwise there is one reply markup per reply, each rendered against
   * the previous reply of the same thread (none for the first).
   */
  lemma BodyReplies(icons: Icons, messages: seq<Message>, i: nat)
    requires i < |TopLevel(messages)|
    ensures var roots, body := TopLevel(messages), Body(icons, messages);
      var replies := RepliesOf(roots[i].id, messages);
      i < |body| &&
      (body[i].replies.None? <==> replies == []) &&
      (body[i].replies.Some? ==>
        |body[i].replies.value| == |replies| &&
        forall k :: 0 <= k < |replies| ==>
          body[i].replies.value[k] == Reply(icons, replies[k], if k > 0 then Some(replies[k - 1]) else None))
  {
    var roots := TopLevel(messages);
    assert roots[i] in roots;
    ItemReplies(icons, roots, messages, i);
  }

  /** `BodyReplies` for any list of roots without reply targets. */
  lemma ItemReplies(icons: Icons, roots: seq<Message>, messages: seq<Message>, i: nat)
    requires i < |roots| && roots[i].replyTo.None?
    ensures var items, replies := Items(icons, roots, messages), RepliesOf(roots[i].id, messages);
      i < |items| &&
      (items[i].replies.None? <==> replies == []) &&
      (items[i].replies.Some? ==>
        |items[i].replies.value| == |replies| &&
        forall k :: 0 <= k < |replies| ==>
          items[i].replies.value[k] == Reply(icons, replies[k], if k > 0 then Some(replies[k - 1]) else None))
  {
    var items := Items(icons, roots, messages);
    assert items[i] == MessageItem(icons, roots[i], if i > 0 then Some(roots[i - 1]) else None, messages);
  }

  /** A reply whose parent is no top-level message appears in no thread. */
  lemma OrphanDropped(messages: seq<Message>, r: Message, parent: string)
    requires r in messages && r.replyTo == Some(parent)
    requires forall m :: m in TopLevel(messages) ==> m.id != parent
    ensures forall i :: 0 <= i < |TopLevel(messages)| ==> r !in RepliesOf(TopLevel(messages)[i].id, messages)
  {
    var roots := TopLevel(messages);
    forall i | 0 <= i < |roots| ensures r !in RepliesOf(roots[i].id, messages) {
      assert roots[i] in roots;
    }
  }

  /**
   * When top-level ids are unique, a reply whose parent is a top-level
   * message appears in the thread of that message and of no other.
   */
  lemma ReplyInOneThread(messages: seq<Message>, r: Message, j: nat)
    requires r in messages && j < |TopLevel(messages)| && r.replyTo == Some(TopLevel(messages)[j].id)
    requires forall i, k :: 0 <= i < k < |TopLevel(messages)| ==> TopLevel(messages)[i].id != TopLevel(messages)[k].id
    ensures forall i :: 0 <= i < |TopLevel(messages)| ==> (r in RepliesOf(TopLevel(messages)[i].id, messages) <==> i == j)
  {
  }

  // ---------------------------------------------------------------------
  // What a label and a reply show.

  /** Markup of one or two segments shows their texts. */
  lemma ShownSmall(x: Segment, y: Segment)
    ensures Shown([x]) == x.text && Shown([x, y]) == x.text + y.text
  {
    assert [x][1..] == [];
    assert [x, y][1..] == [y];
    assert Shown([y]) == y.text;
  }

  lemma {:induction false} ShownAppend(a: Markup, b: Markup)
    ensures Shown(a + b) == Shown(a) + Shown(b)
    decreases |a|
  {
    if a == [] {
      assert a + b == b;
    } else {
      assert (a + b)[1..] == a[1..] + b;
      ShownAppend(a[1..], b);
    }
  }

  /**
   * A message button shows the sender line only when the previous
   * top-level message has another sender (or there is none), then the
   * decorated text; the sender line is the only accented segment.
   */
  lemma ButtonShows(icons: Icons, m: Message, last: Option<Message>)
    ensures var b := MessageButton(icons, m, last);
      Shown(b.markup) == (if SameSender(last, m) then "" else m.sender + "\n") + Decorated(icons, m) &&
      ((exists k :: 0 <= k < |b.markup| && b.markup[k].Accent?) <==> !SameSender(last, m))
  {
    var b := MessageButton(icons, m, last);
    var text := Decorated(icons, m);
    ShownSmall(Accent(m.sender + "\n"), Plain(text));
    if !SameSender(last, m) {
      assert b.markup[0].Accent?;
    }
  }

  /**
   * A reply shows a line break first when a reply precedes it in the
   * thread, then the sender line unless that previous reply has the same
   * sender, then its decorated text; the sender line is the only accented
   * segment.
   */
  lemma ReplyShows(icons: Icons, m: Message, last: Option<Message>)
    ensures var r := Reply(icons, m, last);
      Shown(r) == (if last.Some? then "\n" else "") + (if SameSender(last, m) then "" else m.sender + "\n") + Decorated(icons, m) &&
      ((exists k :: 0 <= k < |r| && r[k].Accent?) <==> !SameSender(last, m))
  {
    var r := Reply(icons, m, last);
    var text := Decorated(icons, m);
    ShownSmall(Plain("\n" + text), Plain(text));
    ShownSmall(Accent(if last.Some? then "\n" + m.sender + "\n" else m.sender + "\n"), Plain(text));
    if !SameSender(last, m) {
      assert r[0].Accent?;
    }
  }

  /**
   * Replies from X, X, Y in a row: the second is a continuation without a
   * sender line; the first and the third carry one.
   */
  lemma ContinuationExample(icons: Icons, a: Message, b: Message, c: Message)
    requires a.sender == b.sender && b.sender != c.sender
    ensures var t := ReplyTexts(icons, [a, b, c]);
      |t| == 3 && t[0] == [Accent(a.sender + "\n"), Plain(Decorated(icons, a))] &&
      t[1] == [Plain("\n" + Decorated(icons, b))] &&
      t[2] == [Accent("\n" + c.sender + "\n"), Plain(Decorated(icons, c))]
  {
  }

  // ---------------------------------------------------------------------
  // Attachment markers.

  /**
   * A message without a `files` key keeps its text. With one, the text
   * gets a space and the markers joined by spaces — so an empty `files`
   * list still adds the space — and the marker of a file is the image
   * marker exactly when its MIME type is known and starts with `image/`.
   */
  lemma DecoratedMarkers(icons: Icons, m: Message)
    requires icons.image != icons.file
    ensures m.files.None? ==> Decorated(icons, m) == m.text
    ensures m.files == Some([]) ==> Decorated(icons, m) == m.text + " "
    ensures m.files.Some? ==>
      var ms := Markers(icons, m.files.value);
      Decorated(icons, m) == m.text + " " + Strings.Join(" ", ms) &&
      |ms| == |m.files.value| &&
      forall k :: 0 <= k < |ms| ==>
        (ms[k] == icons.image <==> (icons.guessType(m.files.value[k]).Some? &&
                                     Strings.StartsWith(icons.guessType(m.files.value[k]).value, "image/")))
  {
  }

  /** One more attachment adds a space and its marker at the end of the text. */
  lemma DecoratedSnoc(icons: Icons, m: Message, files: seq<string>, f: string)
    requires |files| > 0
    ensures Decorated(icons, m.(files := Some(files + [f]))) == Decorated(icons, m.(files := Some(files))) + " " + Marker(icons, f)
  {
    assert Markers(icons, files + [f]) == Markers(icons, files) + [Marker(icons, f)];
    Strings.JoinSnoc(" ", Markers(icons, files), Marker(icons, f));
  }
}
