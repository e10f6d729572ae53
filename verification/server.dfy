/**
 * The per-connection loop of threads_sockets/server_side.py (ClientThread.run):
 * read a message, stop on a closed connection or 'bye', otherwise decode a
 * request, sort its data with the named algorithm and send back either the
 * sorted data or a single error, which also ends the session.
 *
 * Sockets are left out: the messages the client sends are an input sequence
 * and the responses the server sends are an output sequence. Decoding JSON is
 * taken as given, so each text message arrives with its decoded request or
 * the message of the exception decoding raised. The sorts the server calls
 * are pandas wrappers (threads_sockets/sorting_algorithms.py), so they are a
 * parameter, specified only by what every sort owes its caller.
 */
module Server {
  import opened Wrappers
  import opened Seqs
  import opened Tables
  import opened Engine

  datatype Algorithm = Bubble | Quick | Merge | Heap

  /** The name a client uses for each algorithm. */
  function Name(a: Algorithm): (name: string)
    ensures Named(name) == Some(a)
  {
    match a
    case Bubble => "bubble"
    case Quick => "quick"
    case Merge => "merge"
    case Heap => "heap"
  }

  /** The if/elif chain of run: the algorithm a requested name selects, if any. */
  function Named(name: string): (a: Option<Algorithm>)
    ensures a.Some? <==> name in {"bubble", "quick", "merge", "heap"}
  {
    if name == "bubble" then Some(Bubble)
    else if name == "quick" then Some(Quick)
    else if name == "merge" then Some(Merge)
    else if name == "heap" then Some(Heap)
    else None
  }

  /** Names and algorithms correspond one to one. */
  lemma NamedIsInverse(name: string, a: Algorithm)
    ensures Named(name) == Some(a) <==> Name(a) == name
  {
  }

  /** A field of a decoded request: a string, or a list of records. */
  datatype Field = Str(s: string) | Records(rows: Table)

  /** A decoded request: a JSON object. */
  type Request = map<string, Field>

  /**
   * One receive: an empty read (the client closed the connection), or a text
   * with what decoding it gave.
   */
  datatype Incoming = Eof | Text(text: string, decoded: Result<Request>)

  /** The two shapes a response can take; nothing else is ever sent. */
  datatype Response =
    | Success(algorithm: string, time: real, sortedData: Table)
    | Failure(error: string)

  /** A sort imported from sorting_algorithms.py: the sorted data and its time, or an exception. */
  type LibrarySort = (Algorithm, Table) -> Result<Timed<Table>>

  /** Every library sort returns the rows sorted on the default column. */
  ghost predicate Honours(sort: LibrarySort) {
    forall a, t :: HasColumn(t, DefaultColumn) && sort(a, t).Ok? ==>
      SortedPermutation(t, sort(a, t).value.result, DefaultColumn)
  }

  const Unsupported: string := "Algoritmo no soportado"
  /** What building a data frame from a plain string raises. */
  const NotAFrame: string := "DataFrame constructor not properly called!"
  /** What a missing key of the request raises (a KeyError shows its key in quotes). */
  const MissingData: string := "'data'"
  const MissingAlgorithm: string := "'algorithm'"

  /**
   * The body of the try block for a decoded request: look up 'data' and
   * 'algorithm', build the frame, dispatch on the name, sort, and build the
   * success response; every exception becomes an error response.
   */
  function Handle(request: Request, sort: LibrarySort): (r: Response)
    ensures "data" !in request ==> r == Failure(MissingData)
    ensures "data" in request && "algorithm" !in request ==> r == Failure(MissingAlgorithm)
    ensures "data" in request && "algorithm" in request && request["data"].Str? ==> r == Failure(NotAFrame)
    ensures ("data" in request && "algorithm" in request && request["data"].Records?
             && !(request["algorithm"].Str? && Named(request["algorithm"].s).Some?)) ==> r == Failure(Unsupported)
    ensures r.Success? ==>
              && "data" in request && request["data"].Records?
              && "algorithm" in request && request["algorithm"] == Str(r.algorithm)
              && Named(r.algorithm).Some?
              && sort(Named(r.algorithm).value, request["data"].rows) == Ok(Timed(r.sortedData, r.time))
    ensures r.Success? && Honours(sort) && HasColumn(request["data"].rows, DefaultColumn) ==>
              SortedPermutation(request["data"].rows, r.sortedData, DefaultColumn)
    ensures Dispatched(request) ==>
              var outcome := sort(Named(request["algorithm"].s).value, request["data"].rows);
              && (outcome.Ok? ==> r == Success(request["algorithm"].s, outcome.value.elapsed, outcome.value.result))
              && (outcome.Err? ==> r == Failure(outcome.error))
  {
    if "data" !in request then Failure(MissingData)
    else if "algorithm" !in request then Failure(MissingAlgorithm)
    else match request["data"]
      case Str(_) => Failure(NotAFrame)
      case Records(rows) =>
        var name := request["algorithm"];
        if !name.Str? || Named(name.s).None? then Failure(Unsupported)
        else match sort(Named(name.s).value, rows)
          case Err(e) => Failure(e)
          case Ok(timed) => Success(name.s, timed.elapsed, timed.result)
  }

  /** A request with a list of records and one of the four algorithm names. */
  predicate Dispatched(request: Request) {
    && "data" in request && request["data"].Records?
    && "algorithm" in request && request["algorithm"].Str?
    && Named(request["algorithm"].s).Some?
  }

  /**
   * What the session does with one message: nothing, ending the session, for
   * a closed connection or 'bye'; otherwise exactly one response.
   */
  function Reply(m: Incoming, sort: LibrarySort): (r: Option<Response>)
    ensures r.None? <==> m.Eof? || m.text == "bye"
    ensures m.Text? && m.text != "bye" && m.decoded.Err? ==> r == Some(Failure(m.decoded.error))
    ensures m.Text? && m.text != "bye" && m.decoded.Ok? ==> r == Some(Handle(m.decoded.value, sort))
  {
    match m
    case Eof => None
    case Text(text, decoded) =>
      if text == "bye" then None
      else match decoded
        case Err(e) => Some(Failure(e))
        case Ok(request) => Some(Handle(request, sort))
  }

  /** The session stops after this message: it sent nothing, or it sent an error. */
  predicate Ends(reply: Option<Response>) {
    reply.None? || reply.value.Failure?
  }

  /** The responses a session sends for the messages it is given, in order. */
  function Session(inbox: seq<Incoming>, sort: LibrarySort): (sent: seq<Response>)
    ensures |sent| <= |inbox|
    decreases |inbox|
  {
    if inbox == [] then []
    else match Reply(inbox[0], sort)
      case None => []
      case Some(response) =>
        if response.Failure? then [response] else [response] + Session(inbox[1..], sort)
  }

  /**
   * ClientThread.run: read messages until the connection closes, 'bye'
   * arrives or a response is an error, sending one response per request.
   * Returns what was sent and how many messages were read.
   */
  method Run(inbox: seq<Incoming>, sort: LibrarySort) returns (sent: seq<Response>, read: nat)
    ensures sent == Session(inbox, sort)
    ensures read <= |inbox| && |sent| <= read
    ensures forall i :: 0 <= i < |sent| ==> Reply(inbox[i], sort) == Some(sent[i])
    ensures forall i :: 0 <= i < read - 1 ==> !Ends(Reply(inbox[i], sort))
    ensures read < |inbox| ==> 0 < read && Ends(Reply(inbox[read - 1], sort))
  {
    sent, read := [], 0;
    while read < |inbox|
      invariant read <= |inbox| && |sent| == read
      invariant Session(inbox, sort) == sent + Session(inbox[read..], sort)
      invariant Answered(inbox, sent, sort) && Continued(inbox, read, sort)
    {
      var message := inbox[read];
      SessionStep(inbox, sort, read);
      read := read + 1;
      if message.Eof? {
        AppendEmpty(sent);
        break;
      }
      if message.text == "bye" {
        AppendEmpty(sent);
        break;
      }
      var response := match message.decoded
        case Err(e) => Failure(e)
        case Ok(request) => Handle(request, sort);
      assert Reply(message, sort) == Some(response);
      Associative(sent, [response], Session(inbox[read..], sort));
      AnswerOneMore(inbox, sent, sort, response);
      sent := sent + [response];
      if response.Failure? {
        break;
      }
    }
    if read == |inbox| {
      assert inbox[read..] == [];
      AppendEmpty(sent);
    }
  }

  /** Every response sent so far is the reply to the message at its position. */
  ghost predicate Answered(inbox: seq<Incoming>, sent: seq<Response>, sort: LibrarySort) {
    |sent| <= |inbox| && forall i :: 0 <= i < |sent| ==> Reply(inbox[i], sort) == Some(sent[i])
  }

  /** None of the first n messages ended the session. */
  ghost predicate Continued(inbox: seq<Incoming>, n: int, sort: LibrarySort)
    requires n <= |inbox|
  {
    forall i :: 0 <= i < n ==> !Ends(Reply(inbox[i], sort))
  }

  /** Helper: answering the next message extends what was answered. */
  lemma AnswerOneMore(inbox: seq<Incoming>, sent: seq<Response>, sort: LibrarySort, response: Response)
    requires Answered(inbox, sent, sort) && |sent| < |inbox| && Reply(inbox[|sent|], sort) == Some(response)
    ensures Answered(inbox, sent + [response], sort)
    ensures Continued(inbox, |sent|, sort) && response.Success? ==> Continued(inbox, |sent| + 1, sort)
  {
  }

  /** Helper: Session unfolded once at message k. */
  lemma SessionStep(inbox: seq<Incoming>, sort: LibrarySort, k: nat)
    requires k < |inbox|
    ensures Session(inbox[k..], sort)
              == match Reply(inbox[k], sort)
                 case None => []
                 case Some(response) =>
                   if response.Failure? then [response] else [response] + Session(inbox[k + 1..], sort)
  {
    assert inbox[k..][1..] == inbox[k + 1..];
  }

  /**
   * The i-th response answers the i-th message, there is at most one response
   * per message, and every response but the last is a success.
   */
  lemma {:induction false} SessionAnswersInOrder(inbox: seq<Incoming>, sort: LibrarySort)
    ensures forall i :: 0 <= i < |Session(inbox, sort)| ==> Reply(inbox[i], sort) == Some(Session(inbox, sort)[i])
    ensures forall i :: 0 <= i < |Session(inbox, sort)| - 1 ==> Session(inbox, sort)[i].Success?
    decreases |inbox|
  {
    if inbox != [] && Reply(inbox[0], sort).Some? && Reply(inbox[0], sort).value.Success? {
      SessionAnswersInOrder(inbox[1..], sort);
      var rest := Session(inbox[1..], sort);
      assert Session(inbox, sort) == [Reply(inbox[0], sort).value] + rest;
      forall i | 0 < i < |Session(inbox, sort)|
        ensures Reply(inbox[i], sort) == Some(Session(inbox, sort)[i])
      {
        assert inbox[i] == inbox[1..][i - 1];
      }
    }
  }

  /**
   * The message that ends the session (a closed connection, 'bye' or a failed
   * request) is the last one read: later messages are never answered, and the
   * session sends one response per earlier message, plus the error if there
   * is one.
   */
  lemma {:induction false} SessionEndsAt(inbox: seq<Incoming>, sort: LibrarySort, k: nat)
    requires k < |inbox| && Ends(Reply(inbox[k], sort))
    requires forall i :: 0 <= i < k ==> !Ends(Reply(inbox[i], sort))
    ensures Session(inbox, sort) == Session(inbox[..k + 1], sort)
    ensures |Session(inbox, sort)| == if Reply(inbox[k], sort).None? then k else k + 1
    decreases k
  {
    if k > 0 {
      assert !Ends(Reply(inbox[0], sort));
      SessionEndsAt(inbox[1..], sort, k - 1);
      assert inbox[1..][..k] == inbox[..k + 1][1..];
    }
  }

  /** A session in which every request succeeds answers every one of them. */
  lemma {:induction false} SessionAnswersAll(inbox: seq<Incoming>, sort: LibrarySort)
    requires forall i :: 0 <= i < |inbox| ==> !Ends(Reply(inbox[i], sort))
    ensures |Session(inbox, sort)| == |inbox|
    decreases |inbox|
  {
    if inbox != [] {
      SessionAnswersAll(inbox[1..], sort);
    }
  }

  /**
   * A request for an algorithm the server does not know gets the single
   * error 'Algoritmo no soportado', and nothing after it is answered.
   */
  lemma UnknownAlgorithmEndsSession(text: string, rows: Table, name: string, rest: seq<Incoming>, sort: LibrarySort)
    requires text != "bye" && Named(name).None?
    ensures Session([Text(text, Ok(map["data" := Records(rows), "algorithm" := Str(name)]))] + rest, sort)
              == [Failure(Unsupported)]
  {
    var request := map["data" := Records(rows), "algorithm" := Str(name)];
    assert request["data"] == Records(rows) && request["algorithm"] == Str(name);
    var inbox := [Text(text, Ok(request))] + rest;
    assert inbox[0] == Text(text, Ok(request));
  }

  /** A message carrying a dispatched request whose sort succeeds. */
  predicate Sortable(m: Incoming, sort: LibrarySort) {
    && m.Text? && m.text != "bye" && m.decoded.Ok? && Dispatched(m.decoded.value)
    && sort(Named(m.decoded.value["algorithm"].s).value, m.decoded.value["data"].rows).Ok?
  }

  /** The success response owed to a sortable message: its name, the sort's time and the sorted rows. */
  function Answer(m: Incoming, sort: LibrarySort): (r: Response)
    requires Sortable(m, sort)
    ensures r.Success? && r.algorithm == m.decoded.value["algorithm"].s
  {
    var request := m.decoded.value;
    var timed := sort(Named(request["algorithm"].s).value, request["data"].rows).value;
    Success(request["algorithm"].s, timed.elapsed, timed.result)
  }

  /**
   * n requests that each name a known algorithm and whose sorts succeed get n
   * success responses, in order, each naming the algorithm its request asked for.
   */
  lemma {:induction false} SortableSessionAnswersAll(inbox: seq<Incoming>, sort: LibrarySort)
    requires forall i :: 0 <= i < |inbox| ==> Sortable(inbox[i], sort)
    ensures |Session(inbox, sort)| == |inbox|
    ensures forall i :: 0 <= i < |inbox| ==> Session(inbox, sort)[i] == Answer(inbox[i], sort)
  {
    forall i | 0 <= i < |inbox| ensures Reply(inbox[i], sort) == Some(Answer(inbox[i], sort)) {
      SortableGetsAnswer(inbox[i], sort);
    }
    SessionAnswersAll(inbox, sort);
    SessionAnswersInOrder(inbox, sort);
  }

  /** Helper: a sortable message is answered with its success response. */
  lemma SortableGetsAnswer(m: Incoming, sort: LibrarySort)
    requires Sortable(m, sort)
    ensures Reply(m, sort) == Some(Answer(m, sort))
  {
  }
}
