/**
 * The built-in `minimap` dependency origin: endpoints of the form
 * `remote@ticket-slug`, answered by the state of that ticket in the
 * remote workspace.
 */
module MinimapOrigin {
  import opened Core

  /** The slug the built-in origin answers to. */
  const MinimapSlug: string := "minimap"

  /** The character separating an endpoint's remote from its ticket slug. */
  const EndpointSeparator: char := '@'

  /**
   * Opening a remote workspace and reading one ticket's state there: git
   * and network I/O, so a parameter of the model. Given the remote and the
   * ticket slug, it yields the ticket's state or the failure met.
   */
  type TicketLookup = (string, string) -> Result<TicketState, Error>

  // ---------------------------------------------------------------------
  // Splitting on a separator

  /**
   * The pieces of `s` between occurrences of `sep`, in order. Like a
   * string split, it always yields at least one piece, and empty pieces
   * are kept.
   */
  function Split(s: string, sep: char): (parts: seq<string>)
    ensures 1 <= |parts|
    ensures forall i :: 0 <= i < |parts| ==> sep !in parts[i]
    decreases |s|
  {
    if |s| == 0 then [""]
    else
      var rest := Split(s[1..], sep);
      if s[0] == sep then [""] + rest
      else [[s[0]] + rest[0]] + rest[1..]
  }

  /** The pieces put back together with `sep` between neighbours. */
  function Join(parts: seq<string>, sep: char): string
    requires 1 <= |parts|
    decreases |parts|
  {
    if |parts| == 1 then parts[0]
    else parts[0] + [sep] + Join(parts[1..], sep)
  }

  /** A string splits into more than one piece exactly when it holds the separator. */
  lemma {:induction false} SplitCount(s: string, sep: char)
    ensures |Split(s, sep)| == 1 <==> sep !in s
    decreases |s|
  {
    if |s| > 0 {
      SplitCount(s[1..], sep);
      assert s == [s[0]] + s[1..];
    }
  }

  /** Text without the separator is one piece. */
  lemma {:induction false} SplitWhole(s: string, sep: char)
    requires sep !in s
    ensures Split(s, sep) == [s]
    decreases |s|
  {
    if |s| > 0 {
      SplitWhole(s[1..], sep);
      assert [s[0]] + s[1..] == s;
    }
  }

  /** Splitting stops at the first separator and carries on after it. */
  lemma {:induction false} SplitFirst(a: string, b: string, sep: char)
    requires sep !in a
    ensures Split(a + [sep] + b, sep) == [a] + Split(b, sep)
    decreases |a|
  {
    var s := a + [sep] + b;
    if |a| == 0 {
      assert s[1..] == b;
    } else {
      assert s[1..] == a[1..] + [sep] + b;
      SplitFirst(a[1..], b, sep);
      assert [a[0]] + a[1..] == a;
    }
  }

  /** Joining the pieces of a split gives back the text. */
  lemma {:induction false} JoinSplit(s: string, sep: char)
    ensures Join(Split(s, sep), sep) == s
    decreases |s|
  {
    if |s| > 0 {
      JoinSplit(s[1..], sep);
      var rest := Split(s[1..], sep);
      if s[0] == sep {
        assert Split(s, sep)[1..] == rest;
      } else if |rest| == 1 {
        assert [s[0]] + s[1..] == s;
      } else {
        assert Split(s, sep)[1..] == rest[1..];
        assert Join(rest, sep) == rest[0] + [sep] + Join(rest[1..], sep);
        assert [s[0]] + s[1..] == s;
      }
    }
  }

  /** Splitting a join of separator-free pieces gives back the pieces. */
  lemma {:induction false} SplitJoin(parts: seq<string>, sep: char)
    requires 1 <= |parts|
    requires forall i :: 0 <= i < |parts| ==> sep !in parts[i]
    ensures Split(Join(parts, sep), sep) == parts
    decreases |parts|
  {
    if |parts| == 1 {
      SplitWhole(parts[0], sep);
    } else {
      SplitJoin(parts[1..], sep);
      SplitFirst(parts[0], Join(parts[1..], sep), sep);
      assert [parts[0]] + parts[1..] == parts;
    }
  }

  // ---------------------------------------------------------------------
  // Endpoints

  /**
   * An endpoint's remote and ticket slug: the first two pieces of its
   * split on `@`. Only two pieces are read, so text after a second `@` is
   * ignored and empty pieces are accepted.
   */
  function ParseEndpoint(endpoint: string): (r: Result<(string, string), Error>)
    ensures r.Err? ==> r.error == MalformedEndpoint(endpoint)
    ensures r.Ok? ==> EndpointSeparator !in r.value.0 && EndpointSeparator !in r.value.1
  {
    var parts := Split(endpoint, EndpointSeparator);
    if |parts| < 2 then Err(MalformedEndpoint(endpoint))
    else Ok((parts[0], parts[1]))
  }

  /** An endpoint is malformed exactly when it holds no `@`. */
  lemma ParseEndpointFails(endpoint: string)
    ensures ParseEndpoint(endpoint).Err? <==> EndpointSeparator !in endpoint
  {
    SplitCount(endpoint, EndpointSeparator);
  }

  /**
   * A remote and a ticket slug without `@`, followed by nothing or by
   * anything starting with `@`, parse back as that remote and slug.
   */
  lemma ParseEndpointOf(remote: string, ticket: string, tail: string)
    requires EndpointSeparator !in remote && EndpointSeparator !in ticket
    requires tail == [] || tail[0] == EndpointSeparator
    ensures ParseEndpoint(remote + [EndpointSeparator] + ticket + tail) == Ok((remote, ticket))
  {
    var sep := EndpointSeparator;
    assert remote + [sep] + ticket + tail == remote + [sep] + (ticket + tail);
    SplitFirst(remote, ticket + tail, sep);
    if tail == [] {
      assert ticket + tail == ticket;
      SplitWhole(ticket, sep);
    } else {
      assert ticket + tail == ticket + [sep] + tail[1..];
      SplitFirst(ticket, tail[1..], sep);
    }
  }

  /**
   * Conversely, a parsed endpoint starts with its remote, `@` and its
   * ticket slug, and what follows, if anything, starts with `@`.
   */
  lemma ParseEndpointShape(endpoint: string)
    requires ParseEndpoint(endpoint).Ok?
    ensures var (remote, ticket) := ParseEndpoint(endpoint).value;
            var n := |remote| + 1 + |ticket|;
            n <= |endpoint| && endpoint[..n] == remote + [EndpointSeparator] + ticket
            && (n == |endpoint| || endpoint[n] == EndpointSeparator)
  {
    var sep := EndpointSeparator;
    var parts := Split(endpoint, sep);
    JoinSplit(endpoint, sep);
    var tail := if |parts| == 2 then [] else [sep] + Join(parts[2..], sep);
    assert Join(parts[1..], sep) == parts[1] + tail by {
      if |parts| > 2 {
        assert parts[1..][1..] == parts[2..];
      }
    }
    assert endpoint == parts[0] + [sep] + parts[1] + tail;
    var n := |parts[0]| + 1 + |parts[1]|;
    assert endpoint[..n] == parts[0] + [sep] + parts[1];
  }

  // ---------------------------------------------------------------------
  // Status

  /** A ticket's state seen as a dependency status: open is pending, closed is complete. */
  function StatusOf(state: TicketState): (s: DependencyStatus)
    ensures s == Pending <==> state == Open
    ensures s == Complete <==> state == Closed
  {
    match state
    case Open => Pending
    case Closed => Complete
  }

  /**
   * The origin's answer for an endpoint: the endpoint is split, then the
   * ticket is looked up on the remote, and any failure is passed on.
   */
  function Status(lookup: TicketLookup, endpoint: string): (r: Result<DependencyStatus, Error>)
    ensures ParseEndpoint(endpoint).Err? ==> r == Err(MalformedEndpoint(endpoint))
  {
    match ParseEndpoint(endpoint)
    case Err(e) => Err(e)
    case Ok((remote, ticket)) =>
      match lookup(remote, ticket)
      case Err(e) => Err(e)
      case Ok(state) => Ok(StatusOf(state))
  }

  /** An endpoint without `@` is malformed whatever the remote holds. */
  lemma StatusMalformed(lookup: TicketLookup, endpoint: string)
    requires EndpointSeparator !in endpoint
    ensures Status(lookup, endpoint) == Err(MalformedEndpoint(endpoint))
  {
    ParseEndpointFails(endpoint);
  }

  /**
   * For `remote@ticket`, the status is pending while the ticket is open
   * and complete once it is closed; a failed lookup is passed on as is.
   */
  lemma StatusOfTicket(lookup: TicketLookup, remote: string, ticket: string, tail: string)
    requires EndpointSeparator !in remote && EndpointSeparator !in ticket
    requires tail == [] || tail[0] == EndpointSeparator
    ensures var r := Status(lookup, remote + [EndpointSeparator] + ticket + tail);
            && (r.Ok? <==> lookup(remote, ticket).Ok?)
            && (r == Ok(Pending) <==> lookup(remote, ticket) == Ok(Open))
            && (r == Ok(Complete) <==> lookup(remote, ticket) == Ok(Closed))
            && (r.Err? ==> r.error == lookup(remote, ticket).error)
  {
    ParseEndpointOf(remote, ticket, tail);
  }
}
