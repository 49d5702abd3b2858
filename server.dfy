/**
 * The tool dispatcher of the books MCP server (mcp_server/server.py,
 * `handle_call_tool`) and the session state it keeps: the store
 * `_USER_SESSIONS` from session id to session, and the current-session id
 * `_CURRENT_SESSION`, which names the session the next protected call runs as.
 *
 * `Call` is the transition function of one tool call; the class `McpServer`
 * holds the two globals as fields and its `HandleCallTool` is proved to make
 * exactly that transition. The clock and Python's salted `hash()` are inputs
 * (`Env`), one reading of the clock per call.
 */
module Server {
  import opened Wrappers
  import PyStr
  import Token
  import Books
  import Exchange

  /** One entry of `_USER_SESSIONS`. */
  datatype Session = Session(username: string, userId: string, token: string, createdAt: real)

  /** `_USER_SESSIONS` and `_CURRENT_SESSION`. */
  datatype State = State(sessions: map<string, Session>, current: Option<string>)

  /**
   * The tool arguments the handler reads, typed as the advertised input
   * schemas type them; `None` is a key the call did not pass.
   */
  datatype Arguments = Arguments(
    username: Option<string>,
    id: Option<string>,
    genre: Option<string>,
    year: Option<string>,
    author: Option<string>,
    title: Option<string>,
    limit: Option<int>,
    offset: Option<int>,
    fromCurrency: Option<string>,
    toCurrency: Option<string>,
    amount: Option<real>)

  /** The outside world during one call: `time.time()`, `hash(username)` and `hash(username + str(time.time()))`. */
  datatype Env = Env(now: real, usernameHash: int, sessionHash: int)

  /** What the protected tools work on: the parsed books file, the token codec and the rate table. */
  datatype Backend = Backend(
    source: Option<seq<seq<Books.Field>>>,
    codec: Token.Primitives,
    rates: Exchange.ExchangeRates)

  /** The payload of a protected tool's reply. */
  datatype ToolResult =
    | BookFound(book: Books.Row)
    | BookNotFound(bookId: string)
    | BooksFound(books: seq<Books.Row>, filters: Books.Criteria)
    | Converted(fromCode: string, toCode: string, amount: real, converted: real, timestamp: real)
    | ConversionFailed(error: Exchange.ConversionError)

  /** The reply dictionaries the handler returns. */
  datatype Reply =
    | Authenticated(username: string, userId: string, sessionId: string, expiresIn: int)
    | LoggedOut(username: string)
    | NoSessionToLogout
    | StatusActive(username: string, userId: string, sessionAge: int, expiresIn: int)
    | StatusInactive
    | AuthenticationRequired
    | SessionExpired
    | Protected(authenticatedUser: string, result: ToolResult)

  /** The exceptions the handler lets escape. */
  datatype Failure =
    | UnknownTool(name: string)
    | MissingArgument(key: string)
    | BooksUnavailable(error: Books.RepoError)

  /** The state after a call and the reply or exception of the call. */
  datatype Outcome = Outcome(state: State, reply: Result<Reply, Failure>)

  const ValidTools: set<string> := {"authenticate", "logout", "session_status", "books_query", "exchange_convert"}

  /** Seconds a session lives, and the `expires_in` that `authenticate` announces. */
  const SessionLifetime: int := 3600

  // ---------------------------------------------------------------------
  // Helpers the handler's expressions use
  // ---------------------------------------------------------------------

  /** `int(x)` for a float: truncation toward zero. */
  function Truncate(x: real): (n: int)
    ensures x >= 0.0 ==> n as real <= x < n as real + 1.0
    ensures x < 0.0 ==> n as real - 1.0 < x <= n as real
  {
    if x >= 0.0 then x.Floor else -((-x).Floor)
  }

  /** `f"user_{hash(username) % 10000}"`. */
  function UserId(usernameHash: int): string {
    "user_" + PyStr.NatToString(usernameHash % 10000)
  }

  /** `f"session_{hash(username + str(time.time())) % 100000}"`. */
  function SessionId(sessionHash: int): string {
    "session_" + PyStr.NatToString(sessionHash % 100000)
  }

  /** `_CURRENT_SESSION and _CURRENT_SESSION in _USER_SESSIONS`: the current-session id is set, non-empty and backed by an entry. */
  predicate Active(s: State) {
    s.current.Some? && s.current.value != "" && s.current.value in s.sessions
  }

  /** The current session, for an active state. */
  function CurrentSession(s: State): Session
    requires Active(s)
  {
    s.sessions[s.current.value]
  }

  /** The state with the current session deleted and the current-session id cleared. */
  function Purged(s: State): (t: State)
    requires Active(s)
    ensures t.current == None && t.sessions.Keys == s.sessions.Keys - {s.current.value}
    ensures forall k :: k in t.sessions ==> t.sessions[k] == s.sessions[k]
  {
    State(s.sessions - {s.current.value}, None)
  }

  /** `now - session["created_at"] > 3600`: the gate's expiry test. */
  predicate Expired(session: Session, now: real) {
    now - session.createdAt > SessionLifetime as real
  }

  // ---------------------------------------------------------------------
  // The tools
  // ---------------------------------------------------------------------

  /** `authenticate`: store a new session for the user (default `demo_user`) and point at it. */
  function Authenticate(s: State, args: Arguments, env: Env, b: Backend): Outcome {
    var username := if args.username.Some? then args.username.value else "demo_user";
    var userId := UserId(env.usernameHash);
    var token := Token.Create(b.codec, userId, username, env.now);
    var sessionId := SessionId(env.sessionHash);
    Outcome(
      State(s.sessions[sessionId := Session(username, userId, token, env.now)], Some(sessionId)),
      Ok(Authenticated(username, userId, sessionId, SessionLifetime)))
  }

  /** `logout`: delete the current session and clear the current-session id, or report that there is none. */
  function Logout(s: State): Outcome {
    if Active(s) then Outcome(Purged(s), Ok(LoggedOut(CurrentSession(s).username)))
    else Outcome(s, Ok(NoSessionToLogout))
  }

  /** `session_status`: the current session's age and remaining time, without changing anything. */
  function SessionStatus(s: State, now: real): Outcome {
    if Active(s) then
      var session := CurrentSession(s);
      var age := Truncate(now - session.createdAt);
      var left := SessionLifetime - age;
      Outcome(s, Ok(StatusActive(session.username, session.userId, age, if left > 0 then left else 0)))
    else Outcome(s, Ok(StatusInactive))
  }

  /** `books_query`: a look-up by id when a non-empty id is given, a filtered search otherwise. */
  function BooksQuery(args: Arguments, source: Option<seq<seq<Books.Field>>>): Result<ToolResult, Failure> {
    if source.None? then Err(BooksUnavailable(Books.FileNotFound))
    else if args.id.Some? && args.id.value != "" then
      match Books.FindById(Books.Load(source.value), args.id.value)
      case Err(e) => Err(BooksUnavailable(e))
      case Ok(None) => Ok(BookNotFound(args.id.value))
      case Ok(Some(row)) => Ok(BookFound(row))
    else
      var criteria := Books.Criteria(args.genre, args.year, args.author, args.title, args.limit, args.offset);
      Ok(BooksFound(Books.Query(Books.Load(source.value), criteria), criteria))
  }

  /**
   * `exchange_convert`: the three required keys are read in order, then the
   * conversion runs; its errors become a `conversion_failed` reply.
   */
  function ExchangeConvert(args: Arguments, rates: Exchange.ExchangeRates, now: real): Result<ToolResult, Failure> {
    if args.fromCurrency.None? then Err(MissingArgument("from_currency"))
    else if args.toCurrency.None? then Err(MissingArgument("to_currency"))
    else if args.amount.None? then Err(MissingArgument("amount"))
    else
      var f := args.fromCurrency.value;
      var t := args.toCurrency.value;
      var amount := args.amount.value;
      match Exchange.Convert(rates, amount, f, t)
      case Ok(v) => Ok(Converted(PyStr.Upper(f), PyStr.Upper(t), amount, v, now))
      case Err(e) => Ok(ConversionFailed(e))
  }

  /** The protected tools' result, labelled with the session's user. */
  function RunProtected(name: string, args: Arguments, username: string, now: real, b: Backend): Result<Reply, Failure> {
    var r := if name == "books_query" then BooksQuery(args, b.source) else ExchangeConvert(args, b.rates, now);
    match r
    case Ok(result) => Ok(Protected(username, result))
    case Err(e) => Err(e)
  }

  /** The gate in front of the protected tools: no session, an expired session, or the tool's result. */
  function Guarded(s: State, name: string, args: Arguments, env: Env, b: Backend): Outcome {
    if !Active(s) then Outcome(s, Ok(AuthenticationRequired))
    else if Expired(CurrentSession(s), env.now) then Outcome(Purged(s), Ok(SessionExpired))
    else Outcome(s, RunProtected(name, args, CurrentSession(s).username, env.now, b))
  }

  /**
   * `handle_call_tool(name, arguments)` at time `env.now`. Only three things
   * change the state: `authenticate`, `logout`, and the purge of an expired
   * session by the gate; a call that raises changes nothing.
   */
  function Call(s: State, name: string, args: Arguments, env: Env, b: Backend): (o: Outcome)
    ensures o.state == s || name == "authenticate" || name == "logout" || o.reply == Ok(SessionExpired)
    ensures o.reply.Err? ==> o.state == s
    ensures name != "authenticate" ==>
      forall k :: k in o.state.sessions ==> k in s.sessions && o.state.sessions[k] == s.sessions[k]
  {
    if name !in ValidTools then Outcome(s, Err(UnknownTool(name)))
    else if name == "authenticate" then Authenticate(s, args, env, b)
    else if name == "logout" then Logout(s)
    else if name == "session_status" then SessionStatus(s, env.now)
    else Guarded(s, name, args, env, b)
  }

  // ---------------------------------------------------------------------
  // Properties of single calls
  // ---------------------------------------------------------------------

  /** An unknown tool is rejected and nothing changes. */
  lemma UnknownToolRejected(s: State, name: string, args: Arguments, env: Env, b: Backend)
    requires name !in ValidTools
    ensures Call(s, name, args, env, b) == Outcome(s, Err(UnknownTool(name)))
  {
  }

  /**
   * `authenticate` stores a session created now under the new session id,
   * points at it, keeps every other session, and announces one hour.
   */
  lemma AuthenticateStores(s: State, args: Arguments, env: Env, b: Backend)
    ensures
      var o := Call(s, "authenticate", args, env, b);
      var sid := SessionId(env.sessionHash);
      var username := if args.username.Some? then args.username.value else "demo_user";
      && o.state.current == Some(sid)
      && o.state.sessions.Keys == s.sessions.Keys + {sid}
      && o.state.sessions[sid] == Session(username, UserId(env.usernameHash),
                                          Token.Create(b.codec, UserId(env.usernameHash), username, env.now), env.now)
      && (forall k :: k in s.sessions && k != sid ==> o.state.sessions[k] == s.sessions[k])
      && o.reply == Ok(Authenticated(username, UserId(env.usernameHash), sid, 3600))
  {
  }

  /** The ids `authenticate` makes have the shape `user_N` with N < 10000 and `session_N` with N < 100000. */
  lemma IdShapes(usernameHash: int, sessionHash: int)
    ensures PyStr.StartsWith(UserId(usernameHash), "user_")
    ensures PyStr.ParseInt(UserId(usernameHash)[5..]) == Some(usernameHash % 10000)
    ensures PyStr.StartsWith(SessionId(sessionHash), "session_")
    ensures PyStr.ParseInt(SessionId(sessionHash)[8..]) == Some(sessionHash % 100000)
  {
    var u := UserId(usernameHash);
    var v := SessionId(sessionHash);
    assert u[5..] == PyStr.NatToString(usernameHash % 10000);
    assert v[8..] == PyStr.NatToString(sessionHash % 100000);
    PyStr.ParseNatToString(usernameHash % 10000);
    PyStr.ParseNatToString(sessionHash % 100000);
  }

  /** Right after `authenticate`, `session_status` reports the new session, zero seconds old, with the full hour left. */
  lemma AuthenticateThenStatus(s: State, args: Arguments, env: Env, b: Backend, args2: Arguments, env2: Env)
    requires env2.now == env.now
    ensures
      var o := Call(s, "authenticate", args, env, b);
      var username := if args.username.Some? then args.username.value else "demo_user";
      Call(o.state, "session_status", args2, env2, b)
        == Outcome(o.state, Ok(StatusActive(username, UserId(env.usernameHash), 0, 3600)))
  {
    var o := Call(s, "authenticate", args, env, b);
    var sid := SessionId(env.sessionHash);
    assert sid != "" by {
      assert sid[0] == 's';
    }
    assert Active(o.state);
    assert Truncate(env2.now - env.now) == 0;
  }

  /**
   * `logout` with an active session deletes exactly that session and clears
   * the current-session id, replying with its user; otherwise it reports that there is
   * no session and changes nothing, leaving even a dangling current-session id in place.
   */
  lemma LogoutEffect(s: State, args: Arguments, env: Env, b: Backend)
    ensures
      var o := Call(s, "logout", args, env, b);
      && (Active(s) ==>
            && o.state.current == None
            && o.state.sessions.Keys == s.sessions.Keys - {s.current.value}
            && (forall k :: k in o.state.sessions ==> o.state.sessions[k] == s.sessions[k])
            && o.reply == Ok(LoggedOut(s.sessions[s.current.value].username)))
      && (!Active(s) ==> o == Outcome(s, Ok(NoSessionToLogout)))
  {
  }

  /** A second `logout` finds no session and changes nothing. */
  lemma LogoutTwice(s: State, args: Arguments, env: Env, b: Backend, args2: Arguments, env2: Env)
    ensures
      var o := Call(s, "logout", args, env, b);
      Call(o.state, "logout", args2, env2, b) == Outcome(o.state, Ok(NoSessionToLogout))
  {
  }

  /**
   * `session_status` changes nothing; it reports a session exactly when one
   * is active, and its remaining time is never negative and never more than
   * an hour once the session's clock has started. An expired session is
   * still reported, with nothing left: only the gate purges.
   */
  lemma StatusReadOnly(s: State, args: Arguments, env: Env, b: Backend)
    ensures
      var o := Call(s, "session_status", args, env, b);
      && o.state == s
      && (o.reply.Ok? && o.reply.value.StatusActive? <==> Active(s))
      && (o.reply == Ok(StatusInactive) <==> !Active(s))
      && (Active(s) ==>
            var session := CurrentSession(s);
            && o.reply.value.username == session.username
            && o.reply.value.userId == session.userId
            && o.reply.value.sessionAge == Truncate(env.now - session.createdAt)
            && o.reply.value.expiresIn ==
                 (if o.reply.value.sessionAge >= 3600 then 0 else 3600 - o.reply.value.sessionAge)
            && 0 <= o.reply.value.expiresIn
            && (env.now >= session.createdAt ==> o.reply.value.expiresIn <= 3600)
            && (env.now - session.createdAt >= 3600.0 ==> o.reply.value.expiresIn == 0))
  {
    if Active(s) {
      var session := CurrentSession(s);
      var age := Truncate(env.now - session.createdAt);
      if env.now - session.createdAt >= 3600.0 {
        assert age >= 3600;
      }
      if env.now >= session.createdAt {
        assert age >= 0;
      }
    }
  }

  /** The names the gate stands in front of. */
  predicate IsProtected(name: string) {
    name == "books_query" || name == "exchange_convert"
  }

  /** Without an active session a protected tool is refused and nothing changes. */
  lemma GateRequiresSession(s: State, name: string, args: Arguments, env: Env, b: Backend)
    requires IsProtected(name) && !Active(s)
    ensures Call(s, name, args, env, b) == Outcome(s, Ok(AuthenticationRequired))
  {
  }

  /** A session more than an hour old is deleted, the current-session id cleared, and the call refused. */
  lemma GateExpires(s: State, name: string, args: Arguments, env: Env, b: Backend)
    requires IsProtected(name) && Active(s)
    requires env.now - CurrentSession(s).createdAt > 3600.0
    ensures Call(s, name, args, env, b) == Outcome(Purged(s), Ok(SessionExpired))
  {
  }

  /**
   * After the gate purged an expired session, the next protected call is
   * refused for want of a session and `session_status` reports none.
   */
  lemma ExpiredThenRefused(s: State, name: string, args: Arguments, env: Env, b: Backend,
                           name2: string, args2: Arguments, env2: Env)
    requires IsProtected(name) && IsProtected(name2) && Active(s)
    requires env.now - CurrentSession(s).createdAt > 3600.0
    ensures
      var o := Call(s, name, args, env, b);
      && Call(o.state, name2, args2, env2, b) == Outcome(o.state, Ok(AuthenticationRequired))
      && Call(o.state, "session_status", args2, env2, b) == Outcome(o.state, Ok(StatusInactive))
  {
    GateExpires(s, name, args, env, b);
  }

  /**
   * Past the gate, a protected call changes nothing, and every reply it
   * gives (found, not found, search results, converted, conversion failed)
   * is labelled with the current session's user.
   */
  lemma ProtectedRunsAsCurrentUser(s: State, name: string, args: Arguments, env: Env, b: Backend)
    requires IsProtected(name) && Active(s)
    requires env.now - CurrentSession(s).createdAt <= 3600.0
    ensures
      var o := Call(s, name, args, env, b);
      && o.state == s
      && (o.reply.Ok? ==> o.reply.value.Protected? && o.reply.value.authenticatedUser == CurrentSession(s).username)
  {
  }

  /** A session exactly one hour old still passes the gate. */
  lemma GateBoundary(s: State, name: string, args: Arguments, env: Env, b: Backend)
    requires IsProtected(name) && Active(s)
    requires env.now == CurrentSession(s).createdAt + 3600.0
    ensures Call(s, name, args, env, b).state == s
    ensures Call(s, name, args, env, b).reply != Ok(SessionExpired)
  {
    ProtectedRunsAsCurrentUser(s, name, args, env, b);
  }

  /** `exchange_convert` reports the first of its three required keys that is missing, after the gate. */
  lemma ConvertMissingArgument(s: State, args: Arguments, env: Env, b: Backend)
    requires Active(s) && env.now - CurrentSession(s).createdAt <= 3600.0
    ensures
      var o := Call(s, "exchange_convert", args, env, b);
      && (args.fromCurrency.None? ==> o == Outcome(s, Err(MissingArgument("from_currency"))))
      && (args.fromCurrency.Some? && args.toCurrency.None? ==> o == Outcome(s, Err(MissingArgument("to_currency"))))
      && (args.fromCurrency.Some? && args.toCurrency.Some? && args.amount.None? ==>
            o == Outcome(s, Err(MissingArgument("amount"))))
  {
  }

  /**
   * Past the gate, the call runs the tool and labels its result with the
   * session's user, changing nothing.
   */
  lemma PastGate(s: State, name: string, args: Arguments, env: Env, b: Backend)
    requires IsProtected(name) && Active(s)
    requires env.now - CurrentSession(s).createdAt <= 3600.0
    ensures Call(s, name, args, env, b) == Outcome(s, RunProtected(name, args, CurrentSession(s).username, env.now, b))
  {
  }

  /** Converting 100 US dollars into euros with the default rates gives 92 euros, the codes upper-cased. */
  lemma ConvertDollarsToEuros(args: Arguments, now: real)
    requires args.fromCurrency == Some("usd") && args.toCurrency == Some("eur") && args.amount == Some(100.0)
    ensures ExchangeConvert(args, Exchange.DefaultRates(), now) == Ok(Converted("USD", "EUR", 100.0, 92.0, now))
  {
    Exchange.HundredDollarsInEuros();
    assert PyStr.Upper("usd") == "USD" by {
      assert PyStr.Upper("usd")[0] == 'U' && PyStr.Upper("usd")[1] == 'S' && PyStr.Upper("usd")[2] == 'D';
    }
    assert PyStr.Upper("eur") == "EUR" by {
      assert PyStr.Upper("eur")[0] == 'E' && PyStr.Upper("eur")[1] == 'U' && PyStr.Upper("eur")[2] == 'R';
    }
  }

  /**
   * With all three arguments given, `exchange_convert` always replies: the
   * conversion's error becomes a `conversion_failed` reply carrying it, and
   * its value a reply with the upper-cased codes, the amount and the time.
   */
  lemma ConvertReply(args: Arguments, rates: Exchange.ExchangeRates, now: real)
    requires args.fromCurrency.Some? && args.toCurrency.Some? && args.amount.Some?
    ensures
      var f := args.fromCurrency.value;
      var t := args.toCurrency.value;
      var c := Exchange.Convert(rates, args.amount.value, f, t);
      var r := ExchangeConvert(args, rates, now);
      && r.Ok?
      && (r.value.ConversionFailed? <==> c.Err?)
      && (c.Err? ==> r.value == ConversionFailed(c.error))
      && (c.Ok? ==> r.value == Converted(PyStr.Upper(f), PyStr.Upper(t), args.amount.value, c.value, now))
  {
  }

  /**
   * On a consistent table, `exchange_convert` answers `conversion_failed`
   * exactly when the upper-cased codes differ and one is unlisted, naming
   * the source code when it is the unlisted one.
   */
  lemma ConvertFailsOnUnknownCode(args: Arguments, rates: Exchange.ExchangeRates, now: real)
    requires Exchange.Consistent(rates)
    requires args.fromCurrency.Some? && args.toCurrency.Some? && args.amount.Some?
    ensures
      var f := PyStr.Upper(args.fromCurrency.value);
      var t := PyStr.Upper(args.toCurrency.value);
      var r := ExchangeConvert(args, rates, now);
      && (r.Ok? && r.value.ConversionFailed? <==> f != t && (f !in rates.rates || t !in rates.rates))
      && (r.Ok? && r.value.ConversionFailed? ==>
            r.value.error == Exchange.UnknownCurrency(if f !in rates.rates then f else t))
  {
    ConvertReply(args, rates, now);
    Exchange.ConvertFailsOnlyOnUnknown(rates, args.amount.value, args.fromCurrency.value, args.toCurrency.value);
  }

  /** For example, XXX to USD on the default table gives a `conversion_failed` reply naming XXX. */
  lemma ConvertUnknownCurrency(args: Arguments, now: real)
    requires args.fromCurrency == Some("XXX") && args.toCurrency == Some("USD") && args.amount.Some?
    ensures ExchangeConvert(args, Exchange.DefaultRates(), now) == Ok(ConversionFailed(Exchange.UnknownCurrency("XXX")))
  {
    assert PyStr.Upper("XXX") == "XXX" by {
      assert PyStr.Upper("XXX")[0] == 'X' && PyStr.Upper("XXX")[1] == 'X' && PyStr.Upper("XXX")[2] == 'X';
    }
    assert PyStr.Upper("USD") == "USD" by {
      assert PyStr.Upper("USD")[0] == 'U' && PyStr.Upper("USD")[1] == 'S' && PyStr.Upper("USD")[2] == 'D';
    }
  }

  /**
   * On a table without an id column, querying for id `str(i + 1)` finds
   * the i-th row, as loaded with its synthesised id.
   */
  lemma QuerySynthesisedId(args: Arguments, source: Option<seq<seq<Books.Field>>>, i: nat)
    requires source.Some? && i < |source.value|
    requires !Books.HasIdHeader(Books.HeadersOf(Books.CleanRows(source.value)))
    requires args.id == Some(PyStr.NatToString(i + 1))
    ensures BooksQuery(args, source) == Ok(BookFound(Books.Load(source.value)[i]))
  {
    Books.SynthesisedIdFound(source.value, i);
    QueryFound(args, source, Books.Load(source.value)[i]);
  }

  /** A non-empty id that the repository finds is answered with that row. */
  lemma QueryFound(args: Arguments, source: Option<seq<seq<Books.Field>>>, row: Books.Row)
    requires source.Some? && args.id.Some? && args.id.value != ""
    requires Books.FindById(Books.Load(source.value), args.id.value) == Ok(Some(row))
    ensures BooksQuery(args, source) == Ok(BookFound(row))
  {
  }

  /** Without a non-empty id, `books_query` answers the filter with the given criteria. */
  lemma QueryFilters(args: Arguments, source: Option<seq<seq<Books.Field>>>)
    requires source.Some? && (args.id.None? || args.id == Some(""))
    ensures
      var c := Books.Criteria(args.genre, args.year, args.author, args.title, args.limit, args.offset);
      BooksQuery(args, source) == Ok(BooksFound(Books.Query(Books.Load(source.value), c), c))
  {
  }

  // ---------------------------------------------------------------------
  // Invariants over every call
  // ---------------------------------------------------------------------

  /** The current-session id is unset or names a stored session. */
  predicate Tidy(s: State) {
    s.current.None? || s.current.value in s.sessions
  }

  /** The server starts tidy, and no tool call leaves a dangling current-session id behind. */
  lemma CallKeepsTidy(s: State, name: string, args: Arguments, env: Env, b: Backend)
    requires Tidy(s)
    ensures Tidy(State(map[], None))
    ensures Tidy(Call(s, name, args, env, b).state)
  {
  }

  /** Every stored token is the one issued for its session's user at its creation time. */
  ghost predicate TokensIssued(s: State, codec: Token.Primitives) {
    forall k :: k in s.sessions ==>
      s.sessions[k].token == Token.Create(codec, s.sessions[k].userId, s.sessions[k].username, s.sessions[k].createdAt)
  }

  /** Every call keeps every stored token the one issued for its session. */
  lemma CallKeepsTokensIssued(s: State, name: string, args: Arguments, env: Env, b: Backend)
    requires TokensIssued(s, b.codec)
    ensures TokensIssued(Call(s, name, args, env, b).state, b.codec)
  {
    if name == "authenticate" {
      AuthenticateStores(s, args, env, b);
    }
  }

  /**
   * The gate and the session's token agree: when the codec meets the
   * base64 laws and round-trips the session's claims, a protected call is
   * refused as expired exactly when the stored token no longer validates
   * at that time.
   */
  lemma GateAgreesWithToken(s: State, name: string, args: Arguments, env: Env, b: Backend)
    requires Token.Lawful(b.codec) && TokensIssued(s, b.codec)
    requires IsProtected(name) && Active(s)
    requires
      var session := CurrentSession(s);
      Token.JsonRoundTrips(b.codec, Token.JObject(Token.Claims(session.userId, session.username, session.createdAt)))
    ensures Call(s, name, args, env, b).reply == Ok(SessionExpired)
      <==> Token.Validate(b.codec, CurrentSession(s).token, env.now) == None
  {
    var session := CurrentSession(s);
    Token.CreateThenValidate(b.codec, session.userId, session.username, session.createdAt, env.now);
    if !Expired(session, env.now) {
      ProtectedRunsAsCurrentUser(s, name, args, env, b);
    }
  }

  // ---------------------------------------------------------------------
  // The server object
  // ---------------------------------------------------------------------

  /** The module globals: the session store and the current-session id, the books repository, the codec and the rates. */
  class McpServer {
    var sessions: map<string, Session>
    var current: Option<string>
    const books: Books.BooksRepository
    const codec: Token.Primitives
    const rates: Exchange.ExchangeRates

    ghost predicate Valid()
      reads this, books
    {
      books.Valid()
    }

    /** The two session globals as a value. */
    function Snapshot(): State
      reads this
    {
      State(sessions, current)
    }

    /** Module load: no sessions, no current session, the repository over the books file, the default rates. */
    constructor (source: Option<seq<seq<Books.Field>>>, codec: Token.Primitives)
      ensures Valid() && fresh(books)
      ensures sessions == map[] && current == None
      ensures books.source == source && this.codec == codec && rates == Exchange.DefaultRates()
    {
      sessions := map[];
      current := None;
      books := new Books.BooksRepository(source);
      this.codec := codec;
      rates := Exchange.DefaultRates();
    }

    /** `handle_call_tool`: makes exactly the transition `Call` describes. */
    method HandleCallTool(name: string, args: Arguments, env: Env) returns (r: Result<Reply, Failure>)
      requires Valid()
      modifies this, books
      ensures Valid()
      ensures
        var o := Call(old(Snapshot()), name, args, env, Backend(books.source, codec, rates));
        Snapshot() == o.state && r == o.reply
    {
      if name !in ValidTools {
        return Err(UnknownTool(name));
      }
      if name == "authenticate" {
        var username := if args.username.Some? then args.username.value else "demo_user";
        var userId := UserId(env.usernameHash);
        var token := Token.Create(codec, userId, username, env.now);
        var sessionId := SessionId(env.sessionHash);
        sessions := sessions[sessionId := Session(username, userId, token, env.now)];
        current := Some(sessionId);
        return Ok(Authenticated(username, userId, sessionId, SessionLifetime));
      } else if name == "logout" {
        if current.Some? && current.value != "" && current.value in sessions {
          var username := sessions[current.value].username;
          sessions := sessions - {current.value};
          current := None;
          return Ok(LoggedOut(username));
        }
        return Ok(NoSessionToLogout);
      } else if name == "session_status" {
        if current.Some? && current.value != "" && current.value in sessions {
          var session := sessions[current.value];
          var age := Truncate(env.now - session.createdAt);
          var left := SessionLifetime - age;
          return Ok(StatusActive(session.username, session.userId, age, if left > 0 then left else 0));
        }
        return Ok(StatusInactive);
      }

      if !(current.Some? && current.value != "" && current.value in sessions) {
        return Ok(AuthenticationRequired);
      }
      var session := sessions[current.value];
      if env.now - session.createdAt > SessionLifetime as real {
        sessions := sessions - {current.value};
        current := None;
        return Ok(SessionExpired);
      }
      var username := session.username;

      if name == "books_query" {
        if args.id.Some? && args.id.value != "" {
          var item := books.GetById(args.id.value);
          if item.Err? {
            return Err(BooksUnavailable(item.error));
          }
          if item.value.None? {
            return Ok(Protected(username, BookNotFound(args.id.value)));
          }
          return Ok(Protected(username, BookFound(item.value.value)));
        }
        var criteria := Books.Criteria(args.genre, args.year, args.author, args.title, args.limit, args.offset);
        var data := books.Filter(criteria);
        if data.Err? {
          return Err(BooksUnavailable(data.error));
        }
        return Ok(Protected(username, BooksFound(data.value, criteria)));
      }

      if args.fromCurrency.None? {
        return Err(MissingArgument("from_currency"));
      }
      if args.toCurrency.None? {
        return Err(MissingArgument("to_currency"));
      }
      if args.amount.None? {
        return Err(MissingArgument("amount"));
      }
      var fromCurrency := args.fromCurrency.value;
      var toCurrency := args.toCurrency.value;
      var amount := args.amount.value;
      var value := Exchange.Convert(rates, amount, fromCurrency, toCurrency);
      if value.Err? {
        return Ok(Protected(username, ConversionFailed(value.error)));
      }
      return Ok(Protected(username, Converted(PyStr.Upper(fromCurrency), PyStr.Upper(toCurrency), amount, value.value, env.now)));
    }
  }
}
