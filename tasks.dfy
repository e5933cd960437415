/** backend/routes/tasks.js: the two endpoints that relay a chat-completion
    call. The call itself is an `Upstream` outcome and `JSON.parse` a
    partial function; what is modelled is how the model's text is cleaned,
    parsed or replaced before it reaches the client. */
module Tasks {
  import opened Base
  import opened Js
  import opened JsString
  import opened Http

  /** The outcome of `openai.chat.completions.create`: an exception, or the
      first choice's message content (`None` when any link of
      `choices?.[0]?.message?.content` is missing or null). */
  datatype Upstream = Threw | Replied(content: Text)

  // ---------------------------------------------------------------------
  // GET /generate-task
  // ---------------------------------------------------------------------

  /** The clean-up applied to the model's reply before parsing: a missing
      reply is empty, the text is trimmed, and a reply that opens with a
      code fence loses every "```json" tag (any letter case), then every
      remaining "```", then the surrounding white space. The result is
      trimmed; an unfenced reply is only trimmed, and a fenced one keeps no
      fence at all. */
  function Normalise(content: Text): (raw: string)
    ensures IsTrimmed(raw)
    ensures !StartsWith(Trim(TextOr(content, "")), Fence, false) ==> raw == Trim(TextOr(content, ""))
    ensures StartsWith(Trim(TextOr(content, "")), Fence, false) ==> !Occurs(raw, Fence, false)
  {
    var raw := Trim(TextOr(content, ""));
    if StartsWith(raw, Fence, false) then
      var unfenced := RemoveAll(RemoveAll(raw, FenceJson, true), Fence, false);
      NoFenceLeft(RemoveAll(raw, FenceJson, true));
      TrimKeepsAbsence(unfenced, Fence, false);
      Trim(unfenced)
    else raw
  }

  /** An opening tag matching "```json" up to letter case still opens with
      three backticks: a backtick has no other case. */
  lemma TagOpensWithFence(tag: string)
    requires |tag| == |FenceJson| && StartsWith(tag, FenceJson, true)
    ensures tag[..|Fence|] == Fence
  {
    assert SameChar(tag[0], '`', true) && SameChar(tag[1], '`', true) && SameChar(tag[2], '`', true);
  }

  /** Removing the "```json" tags, in any letter case, from a fenced block
      whose body has no backtick leaves the body and the closing fence. */
  lemma StripTag(tag: string, body: string)
    requires |tag| == |FenceJson| && StartsWith(tag, FenceJson, true)
    requires '`' !in body
    ensures RemoveAll(tag + body + Fence, FenceJson, true) == body + Fence
  {
    var block := tag + body + Fence;
    assert StartsWith(block, FenceJson, true) by {
      forall k | 0 <= k < |FenceJson| ensures SameChar(block[k], FenceJson[k], true) {
        assert block[k] == tag[k];
      }
    }
    assert block[|FenceJson|..] == body + Fence;
    forall k | 0 <= k < |body| ensures !SameChar(body[k], FenceJson[0], true) {
      assert body[k] != '`';
    }
    RemoveAllSkipsPrefix(body, Fence, FenceJson, true);
    RemoveAllShort(Fence, FenceJson, true);
  }

  /** Removing the fences from a body without backticks followed by the
      closing fence leaves the body. */
  lemma StripClosingFence(body: string)
    requires '`' !in body
    ensures RemoveAll(body + Fence, Fence, false) == body
  {
    forall k | 0 <= k < |body| ensures !SameChar(body[k], Fence[0], false) {
      assert body[k] != '`';
    }
    RemoveAllSkipsPrefix(body, Fence, Fence, false);
    assert StartsWith(Fence, Fence, false);
    assert Fence[|Fence|..] == [];
    assert body + [] == body;
  }

  /** The white space around a fenced block is what `trim` removes. */
  lemma TrimAroundBlock(before: string, block: string, after: string)
    requires AllSpace(before) && AllSpace(after)
    requires StartsWith(block, Fence, false) && block[|block| - 1] == '`'
    ensures TextOr(Some(before + block + after), "") == before + block + after
    ensures Trim(before + block + after) == block
  {
    TrimPadded(before, block, after);
    TrimTrimmed(block);
  }

  /** A JSON body wrapped in a ```json … ``` block, with the tag in any
      letter case ("```JSON", "```Json", …) and any white space around the
      block, comes out as the trimmed body. */
  lemma NormaliseFencedBlock(before: string, tag: string, body: string, after: string)
    requires AllSpace(before) && AllSpace(after)
    requires |tag| == |FenceJson| && StartsWith(tag, FenceJson, true)
    requires '`' !in body
    ensures Normalise(Some(before + tag + body + Fence + after)) == Trim(body)
  {
    var block := tag + body + Fence;
    assert before + tag + body + Fence + after == before + block + after;
    TagOpensWithFence(tag);
    assert block[..|Fence|] == tag[..|Fence|];
    assert StartsWith(block, Fence, false) && block[|block| - 1] == '`';
    TrimAroundBlock(before, block, after);
    StripTag(tag, body);
    StripClosingFence(body);
  }

  /** A bare ``` … ``` block, with no tag: the "```json" pass finds nothing
      when the body does not itself begin with "json" in some letter case
      (that case is a tagged block), so it leaves the block as it is. */
  lemma KeepBareBlock(body: string)
    requires '`' !in body
    requires !StartsWith(body, "json", true)
    ensures RemoveAll(Fence + body + Fence, FenceJson, true) == Fence + body + Fence
  {
    var s0 := Fence + body + Fence;
    var s1 := s0[1..];
    var s2 := s1[1..];
    var s3 := s2[1..];
    assert s3 == body + Fence;
    assert !StartsWith(s0, FenceJson, true) by {
      if |body| >= 4 {
        var k :| 0 <= k < 4 && !SameChar(body[k], "json"[k], true);
        assert s0[3 + k] == body[k];
      } else {
        assert s0[3 + |body|] == '`';
        assert !SameChar('`', FenceJson[3 + |body|], true);
      }
    }
    if |body| > 0 {
      assert body[0] != '`';
      assert !SameChar(body[0], '`', true);
      assert s1[2] == body[0] && s2[1] == body[0];
    }
    assert !StartsWith(s1, FenceJson, true);
    assert !StartsWith(s2, FenceJson, true);
    forall k | 0 <= k < |body| ensures !SameChar(body[k], FenceJson[0], true) {
      assert body[k] != '`';
    }
    RemoveAllSkipsPrefix(body, Fence, FenceJson, true);
    RemoveAllShort(Fence, FenceJson, true);
    assert RemoveAll(s2, FenceJson, true) == [s2[0]] + RemoveAll(s3, FenceJson, true);
    assert RemoveAll(s1, FenceJson, true) == [s1[0]] + RemoveAll(s2, FenceJson, true);
    assert RemoveAll(s0, FenceJson, true) == [s0[0]] + RemoveAll(s1, FenceJson, true);
    assert s0 == [s0[0]] + ([s1[0]] + ([s2[0]] + s3));
  }

  /** Both clean-up passes on a bare block leave its body. */
  lemma StripBareBlock(body: string)
    requires '`' !in body
    requires !StartsWith(body, "json", true)
    ensures RemoveAll(RemoveAll(Fence + body + Fence, FenceJson, true), Fence, false) == body
  {
    var block := Fence + body + Fence;
    KeepBareBlock(body);
    assert block == Fence + (body + Fence);
    RemoveAllAtMatch(Fence, body + Fence, false);
    StripClosingFence(body);
  }

  /** A bare ``` … ``` block around a backtick-free body, with any white
      space around it, also comes out as the trimmed body: the "```" pass
      removes both fences. */
  lemma NormaliseBareBlock(before: string, body: string, after: string)
    requires AllSpace(before) && AllSpace(after)
    requires '`' !in body
    requires !StartsWith(body, "json", true)
    ensures Normalise(Some(before + Fence + body + Fence + after)) == Trim(body)
  {
    var block := Fence + body + Fence;
    assert before + Fence + body + Fence + after == before + block + after;
    assert block[..|Fence|] == Fence;
    assert StartsWith(block, Fence, false) && block[|block| - 1] == '`';
    TrimAroundBlock(before, block, after);
    StripBareBlock(body);
  }

  /** What `/generate-task` answers. */
  datatype TaskReply =
    | TaskOk(data: JsValue)
    | TaskFail(status: nat, error: string, raw: Text)

  /** `GET /generate-task`, with `JSON.parse` as `parse`. A failed call
      is a 500; a reply that does not parse is a 500 carrying the cleaned
      text and never a made-up task; a reply that parses is passed on as
      parsed, with no check of its shape. */
  function GenerateTask(upstream: Upstream, parse: string -> Option<JsValue>): (r: TaskReply)
    ensures upstream.Threw? <==> r == TaskFail(500, "Ошибка генерации задачи", None)
    ensures r.TaskOk? ==> upstream.Replied? && parse(Normalise(upstream.content)) == Some(r.data)
    ensures r.TaskFail? && r.raw.Some? ==>
              && upstream.Replied? && parse(Normalise(upstream.content)).None?
              && r == TaskFail(500, "Модель вернула неверный JSON", Some(Normalise(upstream.content)))
    ensures upstream.Replied? && parse(Normalise(upstream.content)).None? ==> r.TaskFail? && r.raw.Some?
    ensures upstream.Replied? && parse(Normalise(upstream.content)).Some? ==>
              r == TaskOk(parse(Normalise(upstream.content)).value)
  {
    match upstream
    case Threw => TaskFail(500, "Ошибка генерации задачи", None)
    case Replied(content) =>
      var raw := Normalise(content);
      match parse(raw)
      case None => TaskFail(500, "Модель вернула неверный JSON", Some(raw))
      case Some(data) => TaskOk(data)
  }

  // ---------------------------------------------------------------------
  // POST /explain
  // ---------------------------------------------------------------------

  /** The fields `/explain` destructures from `req.body || {}`. */
  datatype ExplainBody = ExplainBody(question: JsValue, correctAnswer: JsValue, userAnswer: JsValue)

  /** The request is refused when the question is falsy or either answer is
      absent; a falsy answer such as 0 is accepted. */
  predicate ExplainRefused(body: ExplainBody) {
    !Truthy(body.question) || body.correctAnswer.Undefined? || body.userAnswer.Undefined?
  }

  const ExplainFieldsError: string := "Нужны поля: question, correctAnswer, userAnswer"

  /** The text sent when the model gives no usable explanation. */
  const Placeholder: string := "Подсказка недоступна."

  /** `POST /explain`: the request is checked before the model is
      called; a failed call is a 500; otherwise the trimmed explanation, or
      the placeholder when it is missing or only white space. */
  function Explain(body: ExplainBody, upstream: Upstream): (r: Reply<string>)
    ensures ExplainRefused(body) <==> r == Fail(400, ExplainFieldsError)
    ensures !ExplainRefused(body) && upstream.Threw? <==> r == Fail(500, "Ошибка подсказки")
    ensures r.Ok? ==> r.value != "" && IsTrimmed(r.value)
    ensures r.Ok? && (upstream.content.None? || AllSpace(upstream.content.value)) ==> r.value == Placeholder
    ensures r.Ok? && upstream.content.Some? && !AllSpace(upstream.content.value) ==>
              r.value == Trim(upstream.content.value)
    ensures !ExplainRefused(body) && upstream.Replied? ==> r.Ok?
  {
    if ExplainRefused(body) then Fail(400, ExplainFieldsError)
    else match upstream
      case Threw => Fail(500, "Ошибка подсказки")
      case Replied(content) =>
        var explanation := if content.Some? then Trim(content.value) else "";
        TrimEmpty(if content.Some? then content.value else "");
        Ok(if explanation != "" then explanation else Placeholder)
  }

  /** A refused request gets the same answer whatever the model would have
      said: the check happens before the call. */
  lemma ExplainChecksFirst(body: ExplainBody, one: Upstream, other: Upstream)
    requires ExplainRefused(body)
    ensures Explain(body, one) == Explain(body, other)
  {
  }

  /** Zero is an answer: a truthy question with answers 0 and 0 is not refused. */
  lemma ExplainAcceptsZero(question: JsValue, upstream: Upstream)
    requires Truthy(question)
    ensures Explain(ExplainBody(question, Num(0), Num(0)), upstream) != Fail(400, ExplainFieldsError)
  {
  }
}
