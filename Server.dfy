/** The mock API of server.ts: the identical login and signup responses and
    the fixed question payload. */
module Server {
  import opened Text

  datatype AuthUser = AuthUser(id: int, name: string, role: string, email: Option<string>)
  datatype AuthResponse = AuthResponse(token: string, user: AuthUser)

  /** `email === "admin@example.com" ? "admin" : "user"`. */
  function Role(email: Option<string>): string
  {
    if email == Some("admin@example.com") then "admin" else "user"
  }

  /** `email ? email.split('@')[0] : "Test User"`. */
  function DisplayName(email: Option<string>): string
  {
    if Truthy(email) then Split(email.value, '@')[0] else "Test User"
  }

  /** The body both `/api/login` and `/api/signup` send for a request whose
      `email` field is `email`. */
  function Authenticate(email: Option<string>): AuthResponse
  {
    AuthResponse("mock-jwt-token", AuthUser(1, DisplayName(email), Role(email), email))
  }

  /** Admin exactly for the one fixed address. */
  lemma RoleSpec(email: Option<string>)
    ensures Role(email) == "admin" <==> email == Some("admin@example.com")
    ensures Role(email) == "admin" || Role(email) == "user"
  {
  }

  /** The name is the email up to its first '@' (all of it when there is
      none); without an email it is "Test User". */
  lemma DisplayNameSpec(email: Option<string>)
    ensures !Truthy(email) ==> DisplayName(email) == "Test User"
    ensures Truthy(email) ==> var e, n := email.value, DisplayName(email);
      && |n| <= |e| && e[..|n|] == n && '@' !in n
      && (|n| < |e| ==> e[|n|] == '@')
      && ('@' !in e ==> n == e)
  {
    if Truthy(email) {
      SplitHead(email.value, '@');
    }
  }

  /** The fixed response carries the constant token and id and the derived
      name and role. */
  lemma AuthenticateSpec(email: Option<string>)
    ensures var r := Authenticate(email);
      && r.token == "mock-jwt-token" && r.user.id == 1 && r.user.email == email
      && (r.user.role == "admin" <==> email == Some("admin@example.com"))
    ensures Authenticate(Some("admin@example.com")).user.name == "admin"
  {
    AdminName();
  }

  /** The name of `user@domain` is `user`. */
  lemma NameBeforeAt(user: string, domain: string)
    requires user != "" && '@' !in user
    ensures DisplayName(Some(user + "@" + domain)) == user
  {
    var e := user + "@" + domain;
    DisplayNameSpec(Some(e));
    var n := DisplayName(Some(e));
    assert e[|user|] == '@';
    if |n| != |user| {
      assert false;
    }
    assert e[..|user|] == user;
  }

  /** The admin account is called "admin". */
  lemma AdminName()
    ensures DisplayName(Some("admin@example.com")) == "admin"
  {
    NameBeforeAt("admin", "example.com");
    assert "admin" + "@" + "example.com" == "admin@example.com";
  }

  datatype ServerQuestion = ServerQuestion(id: int, text: string, options: seq<string>, answer: string, explanation: string)

  /** `/api/questions`: the same two questions whatever the subject and
      topic. */
  function Questions(subject: Option<string>, topic: Option<string>): seq<ServerQuestion>
  {
    [
      ServerQuestion(1, "What is 2 + 2?", ["3", "4", "5", "6"], "4", "Basic math."),
      ServerQuestion(2, "What is the capital of France?", ["London", "Berlin", "Paris", "Madrid"], "Paris", "Paris is the capital.")
    ]
  }

  /** Every answer is one of its question's options, the ids differ, and the
      query does not change the payload. */
  lemma QuestionsSpec(subject: Option<string>, topic: Option<string>)
    ensures var qs := Questions(subject, topic);
      && |qs| == 2 && qs[0].id != qs[1].id
      && (forall k :: 0 <= k < |qs| ==> qs[k].answer in qs[k].options)
      && qs == Questions(None, None)
  {
    var qs := Questions(subject, topic);
    assert qs[0].options[1] == "4";
    assert qs[1].options[2] == "Paris";
  }
}
