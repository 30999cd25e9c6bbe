/** The three API routes: app/api/generate/route.ts,
    app/api/visualize/route.ts and app/api/auth/login/route.ts. Each reads one
    field of a JSON body, rejects a missing, empty or non-string field with
    400, and maps every exception to 500. The system prompts of
    app/lib/prompts.ts are parameters. */
module Routes {
  import opened Base
  import Anthropic
  import Auth
  import Base64

  /** The requested field of the parsed body. */
  datatype Field = Absent | Text(value: string) | NotText

  /** The request body: parsed, or `request.json()` threw. */
  datatype Body = Parsed(field: Field) | Unparsable(thrown: Thrown)

  /** The field passes `!field || typeof field !== 'string'` unrejected. */
  predicate Present(f: Field) {
    f.Text? && f.value != []
  }

  datatype JsonBody = CodeBody(code: string) | ErrorBody(error: string) | SuccessBody

  /** The session cookie the login route sets. */
  datatype Cookie = Cookie(name: string, value: string, maxAge: nat)

  datatype Response = Response(status: nat, body: JsonBody, setCookie: Option<Cookie>)

  /** Line 20 of both generation routes: the message of an `Error`, otherwise "Unknown error". */
  function ThrownMessage(t: Thrown): (m: string)
    ensures t.Error? ==> m == t.message
    ensures t.NonError? ==> m == "Unknown error"
  {
    if t.Error? then t.message else "Unknown error"
  }

  const PromptRequired: string := "Prompt is required"
  const CodeRequired: string := "Component code is required"
  const ComponentFailureLead: string := "Failed to generate component: "
  const VisualizationFailureLead: string := "Failed to generate visualization: "
  const PasswordRequired: string := "Password is required"
  const InvalidPassword: string := "Invalid password"
  const InternalError: string := "Internal server error"

  /** The shape shared by the two generation routes: 400 with `required` for a
      missing field, `{code}` on success, and 500 with `lead` and the message
      on any exception. */
  function Generation(body: Body, generator: string -> Result<string>, required: string, lead: string): (r: Response)
    ensures r.setCookie.None?
    ensures r.status == 400 <==> body.Parsed? && !Present(body.field)
    ensures r.status == 400 ==> r.body == ErrorBody(required)
    ensures r.status == 200 <==> body.Parsed? && Present(body.field) && generator(body.field.value).Ok?
    ensures r.status == 200 ==> r.body == CodeBody(generator(body.field.value).value)
    ensures r.status !in {200, 400} ==> r.status == 500 && r.body.ErrorBody? && |lead| <= |r.body.error| && r.body.error[..|lead|] == lead
    ensures body.Unparsable? ==> r.body == ErrorBody(lead + ThrownMessage(body.thrown))
    ensures body.Parsed? && Present(body.field) && generator(body.field.value).Err? ==>
              r.body == ErrorBody(lead + generator(body.field.value).message)
  {
    match body
    case Unparsable(thrown) => Response(500, ErrorBody(lead + ThrownMessage(thrown)), None)
    case Parsed(field) =>
      if !Present(field) then Response(400, ErrorBody(required), None)
      else match generator(field.value)
        case Ok(code) => Response(200, CodeBody(code), None)
        case Err(message) => Response(500, ErrorBody(lead + message), None)
  }

  /** app/api/generate/route.ts: `POST`. */
  function GenerateRoute(body: Body, api: (Anthropic.Request, nat) -> Anthropic.Outcome<seq<Anthropic.ContentBlock>>,
                         componentPrompt: string): (r: Response)
    ensures r.status == 400 <==> body.Parsed? && !Present(body.field)
    ensures r.status == 400 ==> r.body == ErrorBody(PromptRequired)
    ensures r.status == 200 <==>
              body.Parsed? && Present(body.field) && Anthropic.GenerateComponent(api, body.field.value, componentPrompt).Ok?
    ensures r.status == 200 ==> r.body == CodeBody(Anthropic.GenerateComponent(api, body.field.value, componentPrompt).value)
    ensures body.Parsed? && Present(body.field) && Anthropic.GenerateComponent(api, body.field.value, componentPrompt).Err? ==>
              r == Response(500, ErrorBody(ComponentFailureLead + Anthropic.GenerateComponent(api, body.field.value, componentPrompt).message), None)
    ensures body.Unparsable? ==> r == Response(500, ErrorBody(ComponentFailureLead + ThrownMessage(body.thrown)), None)
  {
    Generation(body, (prompt: string) => Anthropic.GenerateComponent(api, prompt, componentPrompt), PromptRequired, ComponentFailureLead)
  }

  /** app/api/visualize/route.ts: `POST`. */
  function VisualizeRoute(body: Body, api: (Anthropic.Request, nat) -> Anthropic.Outcome<seq<Anthropic.ContentBlock>>,
                          visualizationPrompt: string): (r: Response)
    ensures r.status == 400 <==> body.Parsed? && !Present(body.field)
    ensures r.status == 400 ==> r.body == ErrorBody(CodeRequired)
    ensures r.status == 200 <==>
              body.Parsed? && Present(body.field) && Anthropic.GenerateVisualization(api, body.field.value, visualizationPrompt).Ok?
    ensures r.status == 200 ==> r.body == CodeBody(Anthropic.GenerateVisualization(api, body.field.value, visualizationPrompt).value)
    ensures body.Parsed? && Present(body.field) && Anthropic.GenerateVisualization(api, body.field.value, visualizationPrompt).Err? ==>
              r == Response(500, ErrorBody(VisualizationFailureLead + Anthropic.GenerateVisualization(api, body.field.value, visualizationPrompt).message), None)
    ensures body.Unparsable? ==> r == Response(500, ErrorBody(VisualizationFailureLead + ThrownMessage(body.thrown)), None)
  {
    Generation(body, (code: string) => Anthropic.GenerateVisualization(api, code, visualizationPrompt), CodeRequired, VisualizationFailureLead)
  }

  /** A rejected prompt never reaches the model: the route answers the same
      whatever the model would have said. */
  lemma MissingPromptSkipsModel(field: Field, api: (Anthropic.Request, nat) -> Anthropic.Outcome<seq<Anthropic.ContentBlock>>,
                                other: (Anthropic.Request, nat) -> Anthropic.Outcome<seq<Anthropic.ContentBlock>>, componentPrompt: string)
    requires !Present(field)
    ensures GenerateRoute(Parsed(field), api, componentPrompt) == GenerateRoute(Parsed(field), other, componentPrompt)
    ensures GenerateRoute(Parsed(field), api, componentPrompt) == Response(400, ErrorBody(PromptRequired), None)
  {}

  /** A model reply without a text block surfaces as a 500 naming it. */
  lemma NoTextReplyIs500(code: string, api: (Anthropic.Request, nat) -> Anthropic.Outcome<seq<Anthropic.ContentBlock>>,
                         visualizationPrompt: string)
    requires code != []
    requires Anthropic.GenerateVisualization(api, code, visualizationPrompt) == Err(Anthropic.NoTextResponse)
    ensures VisualizeRoute(Parsed(Text(code)), api, visualizationPrompt)
            == Response(500, ErrorBody(VisualizationFailureLead + Anthropic.NoTextResponse), None)
  {}

  // ---------------------------------------------------------------------------
  // app/api/auth/login/route.ts
  // ---------------------------------------------------------------------------

  /** `POST` of the login route, with the `AUTH_PASSWORD` and `AUTH_SECRET`
      settings, the clock and the HMAC as parameters. */
  method Login(body: Body, correctPassword: Option<string>, secret: Option<string>, now: nat,
               hmac: (string, string) -> seq<Base64.byte>) returns (r: Response)
    ensures r.status == 400 <==> body.Parsed? && !Present(body.field)
    ensures r.status == 400 ==> r.body == ErrorBody(PasswordRequired)
    ensures r.status == 401 <==> body.Parsed? && Present(body.field)
                                 && !(Truthy(correctPassword) && body.field.value == correctPassword.value)
    ensures r.status == 401 ==> r.body == ErrorBody(InvalidPassword)
    ensures r.status == 200 <==> body.Parsed? && Present(body.field)
                                 && Truthy(correctPassword) && body.field.value == correctPassword.value
                                 && Truthy(secret)
    ensures r.status == 200 ==> r.body == SuccessBody && r.setCookie.Some?
    ensures r.status !in {200, 400, 401} ==> r.status == 500 && r.body == ErrorBody(InternalError)
    ensures r.setCookie.Some? <==> r.status == 200
    ensures r.setCookie.Some? ==>
              && r.setCookie.value.name == Auth.CookieName
              && r.setCookie.value.maxAge * 1000 == Auth.SessionDuration
              && Auth.ValidateSession(r.setCookie.value.value, secret, now, hmac)
              && Auth.ValidateSession(r.setCookie.value.value, secret, now + Auth.SessionDuration, hmac)
              && !Auth.ValidateSession(r.setCookie.value.value, secret, now + Auth.SessionDuration + 1, hmac)
  {
    if body.Unparsable? {
      return Response(500, ErrorBody(InternalError), None);
    }
    if !Present(body.field) {
      return Response(400, ErrorBody(PasswordRequired), None);
    }
    var password := body.field.value;
    var isValid := Auth.ValidatePassword(password, correctPassword);
    if !isValid {
      return Response(401, ErrorBody(InvalidPassword), None);
    }
    var session := Auth.CreateSession(secret, now, hmac);
    if session.Err? {
      return Response(500, ErrorBody(InternalError), None);
    }
    Auth.SessionRoundTrip(secret, now, now, hmac);
    Auth.SessionRoundTrip(secret, now, now + Auth.SessionDuration, hmac);
    Auth.SessionRoundTrip(secret, now, now + Auth.SessionDuration + 1, hmac);
    return Response(200, SuccessBody, Some(Cookie(Auth.CookieName, session.value, Auth.CookieMaxAge)));
  }
}
