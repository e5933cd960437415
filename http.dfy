/** What the handlers and middlewares share about an HTTP exchange: the
    answer a handler gives, the bearer token carried by the `Authorization`
    header, and the request object the middlewares decorate before handing
    it on with `next()`. */
module Http {
  import opened Base
  import opened Js
  import opened JsString
  import opened Schema

  /** A handler's answer: a success body, or an error status with the
      `error` text of the JSON body. */
  datatype Reply<T> = Ok(value: T) | Fail(status: nat, error: string)

  /** `const [, token] = (req.headers.authorization || "").split(" ")`: the
      text after the first blank and before the next one. Any scheme word is
      accepted, and the token is missing exactly when there is no blank. */
  function HeaderToken(header: Text): (token: Option<string>)
    ensures token.None? <==> ' ' !in TextOr(header, "")
    ensures token.Some? ==> ' ' !in token.value
  {
    SecondField(TextOr(header, ""))
  }

  /** The token of a header `<scheme> <token>`, whatever the scheme word. */
  lemma HeaderTokenOfBearer(scheme: string, token: string)
    requires ' ' !in scheme && ' ' !in token
    ensures HeaderToken(Some(scheme + " " + token)) == Some(token)
  {
    SecondFieldOfPair(scheme, token);
    assert Filled(Some(scheme + " " + token)) by {
      assert (scheme + " " + token)[|scheme|] == ' ';
    }
  }

  /** The token is the text after the first blank up to the next blank or
      the end, whatever follows; it is empty when two blanks meet or the
      header ends in its first blank. */
  lemma HeaderTokenOfSpan(scheme: string, token: string, rest: string)
    requires ' ' !in scheme && ' ' !in token
    requires rest == [] || rest[0] == ' '
    ensures HeaderToken(Some(scheme + " " + token + rest)) == Some(token)
  {
    SecondFieldOfSpan(scheme, token, rest);
    assert Filled(Some(scheme + " " + token + rest)) by {
      assert (scheme + " " + token + rest)[|scheme|] == ' ';
    }
  }

  /** The Express request as the middlewares see it: the header they read,
      the fields they attach, and how often `next()` was called. */
  class Request {
    const authorization: Text
    var childId: JsValue
    var parent: Option<Parent>
    var parentId: Option<nat>
    var nextCalls: nat

    /** A request as it arrives: nothing attached yet, `next()` not called. */
    constructor (authorization: Text)
      ensures this.authorization == authorization
      ensures childId == Undefined && parent == None && parentId == None
      ensures nextCalls == 0
    {
      this.authorization := authorization;
      childId := Undefined;
      parent := None;
      parentId := None;
      nextCalls := 0;
    }
  }
}
