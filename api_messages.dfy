/**
 * The message endpoints of the chat API client: the request that fetches a
 * session's messages, the reordering of the answer to oldest first, and the
 * JSON body built for an outgoing message (emoji aliases, mention
 * shorthands, mention records, reply target). The HTTP calls themselves
 * are parameters: `api` stands for the answer of the GET request, and
 * `emojize` for the emoji library's alias substitution.
 */
module ApiMessages {
  import opened Wrappers
  import Strings
  import EmailPattern

  /** JSON values, as the request parameters and bodies carry them. */
  datatype Json = JStr(str: string) | JInt(num: int) | JArr(items: seq<Json>) | JObj(fields: map<string, Json>)

  /**
   * A message record as the API returns it. `replyTo` is the
   * `reply_main_message_id` key (absent on top-level messages) and `files`
   * the `files` key (absent when nothing is attached), here reduced to the
   * attachments' file names.
   */
  datatype Message = Message(
    id: string,
    text: string,
    sender: string,
    replyTo: Option<string>,
    files: Option<seq<string>>)

  /** The answer of the messages GET request for given query parameters, newest first. */
  type MessageApi = map<string, Json> -> seq<Message>

  /** The session key of a request or body: `to_channel` or `to_contact`. */
  function TargetKey(sessionType: string): string
  {
    "to_" + sessionType
  }

  /** The query parameters of the messages GET request. */
  function RequestParams(session: string, sessionType: string): (p: map<string, Json>)
    ensures p.Keys == {"from", "page_size", TargetKey(sessionType)}
    ensures p["from"] == JStr("2020-01-01T12:00:00Z") && p["page_size"] == JInt(50)
    ensures p[TargetKey(sessionType)] == JStr(session)
  {
    assert TargetKey(sessionType)[0] == 't';
    map["from" := JStr("2020-01-01T12:00:00Z"), "page_size" := JInt(50), TargetKey(sessionType) := JStr(session)]
  }

  /** `list(reversed(s))`. */
  function Reverse<T>(s: seq<T>): (r: seq<T>)
    ensures |r| == |s|
    ensures forall k :: 0 <= k < |s| ==> r[k] == s[|s| - 1 - k]
  {
    if s == [] then [] else Reverse(s[1..]) + [s[0]]
  }

  /** The blocking fetch: the API's answer for this session, reordered oldest first. */
  function GetMessages(api: MessageApi, session: string, sessionType: string): (r: seq<Message>)
    ensures var answer := api(RequestParams(session, sessionType));
      |r| == |answer| && forall k :: 0 <= k < |r| ==> r[k] == answer[|answer| - 1 - k]
  {
    Reverse(api(RequestParams(session, sessionType)))
  }

  /** The list the non-blocking fetch hands to its callback: the same reordering of the same request's answer. */
  function AsyncGetMessages(api: MessageApi, session: string, sessionType: string): (r: seq<Message>)
    ensures var answer := api(RequestParams(session, sessionType));
      |r| == |answer| && forall k :: 0 <= k < |r| ==> r[k] == answer[|answer| - 1 - k]
  {
    GetMessages(api, session, sessionType)
  }

  /** Python truthiness of the reply target: `None` and the empty string are false. */
  predicate Truthy(replyId: Option<string>)
  {
    replyId.Some? && replyId.value != ""
  }

  /** Python's `s[1:]`. */
  function DropFirst(s: string): string
  {
    if |s| == 0 then "" else s[1..]
  }

  /** The text after `message = message.replace(email, shorthand)` for each pair, in order. */
  function ReplaceEach(text: string, emails: seq<string>, shorthands: seq<string>): string
    requires |emails| == |shorthands|
    decreases |emails|
  {
    if |emails| == 0 then text
    else
      var n := |emails| - 1;
      Strings.ReplaceAll(ReplaceEach(text, emails[..n], shorthands[..n]), emails[n], shorthands[n])
  }

  /** The mention record of one email, its offsets searched in the final text. */
  function AtItem(email: string, shorthand: string, text: string): Json
  {
    var start := Strings.Find(text, shorthand);
    JObj(map[
      "at_type" := JInt(1),
      "at_contact" := JStr(DropFirst(email)),
      "start_position" := JInt(start),
      "end_position" := JInt(start + |shorthand| - 1)])
  }

  /** One mention record per email, in order. */
  function AtItems(emails: seq<string>, shorthands: seq<string>, text: string): seq<Json>
    requires |emails| == |shorthands|
  {
    seq(|emails|, k requires 0 <= k < |emails| => AtItem(emails[k], shorthands[k], text))
  }

  /**
   * The body posted for a final text and its mention records: the keys
   * `message`, the session key and `at_items`, plus
   * `reply_main_message_id` exactly when the reply target is truthy.
   */
  function JsonBody(final: string, atItems: seq<Json>, session: string, sessionType: string, replyId: Option<string>): (body: map<string, Json>)
    ensures body.Keys == {"message", TargetKey(sessionType), "at_items"} + (if Truthy(replyId) then {"reply_main_message_id"} else {})
    ensures body["message"] == JStr(final) && body["at_items"] == JArr(atItems)
    ensures body[TargetKey(sessionType)] == JStr(session)
    ensures "reply_main_message_id" in body <==> Truthy(replyId)
    ensures Truthy(replyId) ==> body["reply_main_message_id"] == JStr(replyId.value)
  {
    assert TargetKey(sessionType)[0] == 't';
    assert "message"[0] == 'm' && "at_items"[0] == 'a' && "reply_main_message_id"[0] == 'r';
    var body := map["message" := JStr(final), TargetKey(sessionType) := JStr(session), "at_items" := JArr(atItems)];
    if Truthy(replyId) then body["reply_main_message_id" := JStr(replyId.value)] else body
  }

  /** The JSON body `send_message` posts for `message`. */
  function SendBody(
    emojize: string -> string, w: char -> bool,
    message: string, session: string, sessionType: string, replyId: Option<string>): map<string, Json>
  {
    var text := emojize(message);
    var emails := EmailPattern.Emails(w, text);
    var shorthands := EmailPattern.Shorthands(w, emails);
    var final := ReplaceEach(text, emails, shorthands);
    JsonBody(final, AtItems(emails, shorthands, final), session, sessionType, replyId)
  }

  /** The loop of `send_message` that rewrites each email to its shorthand, in email order. */
  method ReplaceMentions(text: string, emails: seq<string>, shorthands: seq<string>) returns (final: string)
    requires |emails| == |shorthands|
    ensures final == ReplaceEach(text, emails, shorthands)
  {
    final := text;
    for i := 0 to |emails|
      invariant final == ReplaceEach(text, emails[..i], shorthands[..i])
    {
      assert emails[..i + 1][..i] == emails[..i] && shorthands[..i + 1][..i] == shorthands[..i];
      final := Strings.ReplaceAll(final, emails[i], shorthands[i]);
    }
    assert emails[..|emails|] == emails && shorthands[..|shorthands|] == shorthands;
  }

  /**
   * The text and JSON construction of `send_message`: the emails are
   * replaced by their shorthands one after the other, then the body is
   * built and the reply target added when there is one.
   */
  method SendMessageBody(
    emojize: string -> string, w: char -> bool,
    message: string, session: string, sessionType: string, replyId: Option<string>)
    returns (json: map<string, Json>)
    ensures json == SendBody(emojize, w, message, session, sessionType, replyId)
  {
    var text := emojize(message);
    var emails := EmailPattern.Emails(w, text);
    var shorthands := EmailPattern.Shorthands(w, emails);
    text := ReplaceMentions(text, emails, shorthands);
    var atItems := AtItems(emails, shorthands, text);
    json := map["message" := JStr(text), TargetKey(sessionType) := JStr(session), "at_items" := JArr(atItems)];
    if Truthy(replyId) {
      json := json["reply_main_message_id" := JStr(replyId.value)];
    }
    assert json == JsonBody(text, atItems, session, sessionType, replyId);
  }

  /** Text in which no email is found goes out as emojized, with no mention records. */
  lemma SendBodyNoMentions(
    emojize: string -> string, w: char -> bool,
    message: string, session: string, sessionType: string, replyId: Option<string>)
    requires EmailPattern.Emails(w, emojize(message)) == []
    ensures var body := SendBody(emojize, w, message, session, sessionType, replyId);
      body["message"] == JStr(emojize(message)) && body["at_items"] == JArr([])
  {
    assert AtItems([], [], emojize(message)) == [];
  }

  /**
   * One mention record: type 1, the email without its first character as
   * contact, and as start the first occurrence of the shorthand in the text
   * (-1 when it does not occur), with an inclusive end.
   */
  lemma AtItemShape(email: string, sh: string, text: string)
    ensures var item := AtItem(email, sh, text);
      item.JObj? && item.fields.Keys == {"at_type", "at_contact", "start_position", "end_position"} &&
      item.fields["at_type"] == JInt(1) &&
      item.fields["at_contact"] == JStr(DropFirst(email)) &&
      item.fields["start_position"].JInt? && item.fields["end_position"].JInt? &&
      var start := item.fields["start_position"].num;
      item.fields["end_position"].num == start + |sh| - 1 &&
      (start == -1 <==> forall j {:trigger Strings.OccursAt(text, sh, j)} :: !Strings.OccursAt(text, sh, j)) &&
      (start != -1 ==>
        Strings.OccursAt(text, sh, start) &&
        forall j {:trigger Strings.OccursAt(text, sh, j)} :: 0 <= j < start ==> !Strings.OccursAt(text, sh, j))
  {
    assert "at_type"[3] == 't' && "at_contact"[3] == 'c' && "start_position"[0] == 's' && "end_position"[0] == 'e';
  }

  /**
   * The mention records of a body: one per email found in the emojized
   * text, in order, each the record of that email and its shorthand against
   * the final text, which is the emojized text with every email replaced.
   */
  lemma SendBodyAtItems(
    emojize: string -> string, w: char -> bool,
    message: string, session: string, sessionType: string, replyId: Option<string>)
    ensures var body := SendBody(emojize, w, message, session, sessionType, replyId);
      var emails := EmailPattern.Emails(w, emojize(message));
      var shorthands := EmailPattern.Shorthands(w, emails);
      var final := ReplaceEach(emojize(message), emails, shorthands);
      body["message"] == JStr(final) && body["at_items"].JArr? &&
      |body["at_items"].items| == |emails| &&
      forall k :: 0 <= k < |emails| ==>
        body["at_items"].items[k] == AtItem(emails[k], shorthands[k], final)
  {
  }

  /** The scan of the worked example finds one match, `@alice@example.com` at index 6. */
  lemma ExampleScan(w: char -> bool, s: string, pre: string, e: string, post: string)
    requires EmailPattern.ValidWordClass(w) && !w(' ') && forall c :: 'a' <= c <= 'z' ==> w(c)
    requires s == pre + e + post && pre == "hello " && e == "@alice@example.com" && post == " how are you"
    ensures EmailPattern.FindAll(w, s, 0) == [EmailPattern.Span(6, 12, 20, 24)]
    ensures EmailPattern.Matches(w, s, EmailPattern.Span(6, 12, 20, 24))
  {
    ExampleMatch(w, s, pre, e, post);
    assert '@' !in s[0..6] by {
      assert s[0..6] == pre;
    }
    assert '@' !in s[24..36] by {
      assert s[24..36] == post;
    }
    EmailPattern.FindAllSkip(w, s, 0, 6);
    EmailPattern.FindAllSkip(w, s, 24, 36);
  }

  /** The matcher finds the worked example's email at index 6, through to index 24. */
  lemma ExampleMatch(w: char -> bool, s: string, pre: string, e: string, post: string)
    requires EmailPattern.ValidWordClass(w) && !w(' ') && forall c :: 'a' <= c <= 'z' ==> w(c)
    requires s == pre + e + post && pre == "hello " && e == "@alice@example.com" && post == " how are you"
    ensures |s| == 36
    ensures EmailPattern.Matches(w, s, EmailPattern.Span(6, 12, 20, 24))
    ensures EmailPattern.MatchAt(w, s, 6) == Some(EmailPattern.Span(6, 12, 20, 24))
  {
    var sp := EmailPattern.Span(6, 12, 20, 24);
    assert EmailPattern.Matches(w, s, sp) by {
      assert s[6] == '@' && s[12] == '@' && s[20] == '.';
      assert forall k :: 7 <= k < 12 ==> 'a' <= s[k] <= 'z';
      assert forall k :: 13 <= k < 20 ==> 'a' <= s[k] <= 'z';
      assert forall k :: 21 <= k < 24 ==> 'a' <= s[k] <= 'z';
    }
    EmailPattern.MatchAtGreedy(w, s, 6, sp);
    assert s[24] == ' ';
  }

  /** The emails of the worked example: one, `@alice@example.com`, whose shorthand is `@alice`. */
  lemma ExampleEmails(w: char -> bool, s: string, pre: string, e: string, post: string)
    requires EmailPattern.ValidWordClass(w) && !w(' ') && forall c :: 'a' <= c <= 'z' ==> w(c)
    requires s == pre + e + post && pre == "hello " && e == "@alice@example.com" && post == " how are you"
    ensures EmailPattern.Emails(w, s) == [e]
    ensures EmailPattern.Shorthands(w, [e]) == [e[..6]]
  {
    var sp := EmailPattern.Span(6, 12, 20, 24);
    ExampleScan(w, s, pre, e, post);
    assert s[6..24] == e;
    EmailPattern.ShorthandOfMatch(w, s, sp);
    assert s[6..12] == e[..6];
  }

  /** Replacing the worked example's email by its shorthand. */
  lemma ExampleReplace(s: string, pre: string, e: string, sh: string, post: string)
    requires s == pre + e + post && pre == "hello " && e == "@alice@example.com" && post == " how are you"
    requires sh == e[..6]
    ensures ReplaceEach(s, [e], [sh]) == pre + sh + post
  {
    assert Strings.OccursAt(s, e, 6);
    assert s[..6] == pre && s[24..] == post;
    Strings.FindFirst(s, e, 6);
    Strings.ReplaceAllFirst(s, e, sh, 6);
    Strings.FindAbsent(post, e);
    Strings.ReplaceAllNone(post, e, sh);
    assert [e][..0] == [] && [sh][..0] == [];
  }

  /**
   * The worked example `hello @alice@example.com how are you` (given in
   * three pieces), for any
   * word class that counts lower-case letters as word characters and the
   * space as none, and an emoji substitution that leaves the text alone:
   * the final text is `hello @alice how are you`, and the one mention record
   * has contact `alice@example.com`, start 6 and end 11.
   */
  lemma WorkedExample(
    emojize: string -> string, w: char -> bool,
    message: string, pre: string, e: string, post: string, session: string, sessionType: string)
    requires EmailPattern.ValidWordClass(w) && !w(' ') && forall c :: 'a' <= c <= 'z' ==> w(c)
    requires pre == "hello " && e == "@alice@example.com" && post == " how are you"
    requires message == pre + e + post && emojize(message) == message
    ensures var body := SendBody(emojize, w, message, session, sessionType, None);
      body["message"] == JStr("hello @alice how are you") &&
      body["at_items"] == JArr([JObj(map[
        "at_type" := JInt(1),
        "at_contact" := JStr("alice@example.com"),
        "start_position" := JInt(6),
        "end_position" := JInt(11)])])
  {
    var sh := e[..6];
    ExampleEmails(w, message, pre, e, post);
    ExampleReplace(message, pre, e, sh, post);
    var final := pre + sh + post;
    ExampleFind(final, pre, e, sh, post);
    ExampleRecord(e, sh, final);
    assert SendBody(emojize, w, message, session, sessionType, None)
      == JsonBody(final, AtItems([e], [sh], final), session, sessionType, None);
  }

  /** The shorthand of the worked example is found at index 6 of its final text. */
  lemma ExampleFind(final: string, pre: string, e: string, sh: string, post: string)
    requires final == pre + sh + post && pre == "hello " && e == "@alice@example.com" && post == " how are you"
    requires sh == e[..6]
    ensures final == "hello @alice how are you"
    ensures Strings.Find(final, sh) == 6
  {
    assert Strings.OccursAt(final, sh, 6) && final[..6] == pre;
    Strings.FindFirst(final, sh, 6);
    assert sh == "@alice";
    ExampleText(pre, sh, post, final);
  }

  /** The three pieces of the worked example's final text, put together. */
  lemma ExampleText(pre: string, sh: string, post: string, final: string)
    requires pre == "hello " && sh == "@alice" && post == " how are you" && final == pre + sh + post
    ensures final == "hello @alice how are you"
  {
  }

  /** The mention record of the worked example. */
  lemma ExampleRecord(e: string, sh: string, final: string)
    requires Strings.Find(final, sh) == 6 && |sh| == 6 && e == "@alice@example.com"
    ensures AtItems([e], [sh], final) == [JObj(map[
        "at_type" := JInt(1),
        "at_contact" := JStr("alice@example.com"),
        "start_position" := JInt(6),
        "end_position" := JInt(11)])]
  {
    assert DropFirst(e) == "alice@example.com";
  }
}
