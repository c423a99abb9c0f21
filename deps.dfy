/**
 * The dependency-origin registry: origins keyed by slug, seeded with the
 * built-in `minimap` origin, and the status lookup that dispatches on a
 * dependency's origin slug.
 */
module Deps {
  import opened Core
  import MinimapOrigin

  /**
   * A dependency origin, seen from the registry: its slug and its answer
   * for each endpoint. What an origin does to answer is its own affair.
   */
  datatype DependencyOrigin = DependencyOrigin(
    slug: string,
    query: string -> Result<DependencyStatus, Error>)

  /** The slug that names the workspace holding the ticket itself. */
  const ReservedSlug: string := "_"

  /** The built-in origin, answering over the given ticket lookup. */
  function BuiltinOrigin(lookup: MinimapOrigin.TicketLookup): (o: DependencyOrigin)
    ensures o.slug == MinimapOrigin.MinimapSlug
    ensures forall e :: o.query(e) == MinimapOrigin.Status(lookup, e)
  {
    DependencyOrigin(MinimapOrigin.MinimapSlug, e => MinimapOrigin.Status(lookup, e))
  }

  /**
   * Whether a slug may be registered: `_` and `minimap` are taken, and a
   * slug may not contain `@`, which separates it from an endpoint.
   */
  function ValidateOriginSlug(slug: string): (r: Result<(), Error>)
    ensures r.Err? <==>
              (slug == ReservedSlug || slug == MinimapOrigin.MinimapSlug || '@' in slug)
    ensures r.Err? ==> r.error == MalformedOrigin(slug)
  {
    if slug == ReservedSlug || slug == MinimapOrigin.MinimapSlug || '@' in slug then
      Err(MalformedOrigin(slug))
    else
      Ok(())
  }

  /**
   * The origins after registering `o`. Registering touches one key at
   * most: the new origin's slug, and only when that slug is valid; so the
   * built-in entry and the reserved slug are never registered over.
   */
  function Registered(origins: map<string, DependencyOrigin>, o: DependencyOrigin)
    : (r: map<string, DependencyOrigin>)
    ensures ValidateOriginSlug(o.slug).Err? ==> r == origins
    ensures ValidateOriginSlug(o.slug).Ok? ==> o.slug in r && r[o.slug] == o
    ensures forall k :: k != o.slug ==> (k in r <==> k in origins)
    ensures forall k :: k != o.slug && k in origins ==> r[k] == origins[k]
    ensures MinimapOrigin.MinimapSlug in r <==> MinimapOrigin.MinimapSlug in origins
    ensures MinimapOrigin.MinimapSlug in origins ==>
              r[MinimapOrigin.MinimapSlug] == origins[MinimapOrigin.MinimapSlug]
    ensures ReservedSlug in r <==> ReservedSlug in origins
  {
    if ValidateOriginSlug(o.slug).Err? then origins else origins[o.slug := o]
  }

  /**
   * The status of an endpoint of the origin named `slug`: `_` is refused
   * as malformed, an unknown slug is reported, and a known origin's
   * failure is wrapped as an origin error.
   */
  function Resolve(origins: map<string, DependencyOrigin>, slug: string, endpoint: string)
    : (r: Result<DependencyStatus, Error>)
    ensures slug == ReservedSlug ==> r == Err(MalformedOrigin(ReservedSlug))
    ensures slug != ReservedSlug && slug !in origins ==> r == Err(UnknownOrigin(slug))
    ensures slug != ReservedSlug && slug in origins ==>
              var q := origins[slug].query(endpoint);
              (r.Ok? <==> q.Ok?) && (r.Ok? ==> r.value == q.value)
              && (r.Err? ==> r.error == Origin(q.error))
  {
    if slug == ReservedSlug then Err(MalformedOrigin(slug))
    else if slug !in origins then Err(UnknownOrigin(slug))
    else
      match origins[slug].query(endpoint)
      case Ok(s) => Ok(s)
      case Err(e) => Err(Origin(e))
  }

  /** After a successful registration the new origin answers for its slug. */
  lemma ResolveRegistered(origins: map<string, DependencyOrigin>, o: DependencyOrigin, endpoint: string)
    requires ValidateOriginSlug(o.slug).Ok?
    ensures var r := Resolve(Registered(origins, o), o.slug, endpoint);
            (r.Ok? <==> o.query(endpoint).Ok?)
            && (r.Ok? ==> r.value == o.query(endpoint).value)
            && (r.Err? ==> r.error == Origin(o.query(endpoint).error))
  {
    assert o.slug in Registered(origins, o);
  }

  /**
   * Through the built-in origin, `minimap` dependencies on `remote@ticket`
   * are pending while the ticket is open and complete once it is closed,
   * and an endpoint without `@` is a wrapped malformed-endpoint error.
   */
  lemma ResolveMinimap(origins: map<string, DependencyOrigin>, lookup: MinimapOrigin.TicketLookup,
                       remote: string, ticket: string)
    requires MinimapOrigin.MinimapSlug in origins
    requires origins[MinimapOrigin.MinimapSlug] == BuiltinOrigin(lookup)
    requires '@' !in remote && '@' !in ticket
    ensures var r := Resolve(origins, MinimapOrigin.MinimapSlug, remote + "@" + ticket);
            && (r == Ok(Pending) <==> lookup(remote, ticket) == Ok(Open))
            && (r == Ok(Complete) <==> lookup(remote, ticket) == Ok(Closed))
            && (r.Err? <==> lookup(remote, ticket).Err?)
    ensures Resolve(origins, MinimapOrigin.MinimapSlug, remote)
         == Err(Origin(MalformedEndpoint(remote)))
  {
    MinimapOrigin.StatusOfTicket(lookup, remote, ticket, []);
    assert remote + "@" + ticket == remote + [MinimapOrigin.EndpointSeparator] + ticket + [];
    MinimapOrigin.StatusMalformed(lookup, remote);
  }

  /** The origins a registry holds. */
  class DependencyRegistry {
    /** The built-in origin the registry was seeded with. */
    const builtin: DependencyOrigin
    var origins: map<string, DependencyOrigin>

    /**
     * Every origin sits under its own slug, the built-in one under
     * `minimap`, and nothing under the reserved slug.
     */
    ghost predicate Valid()
      reads this
    {
      && builtin.slug == MinimapOrigin.MinimapSlug
      && MinimapOrigin.MinimapSlug in origins
      && origins[MinimapOrigin.MinimapSlug] == builtin
      && ReservedSlug !in origins
      && (forall k :: k in origins ==> origins[k].slug == k)
    }

    /** A new registry holds the built-in origin, and nothing else. */
    constructor(lookup: MinimapOrigin.TicketLookup)
      ensures Valid()
      ensures builtin == BuiltinOrigin(lookup)
      ensures origins == map[MinimapOrigin.MinimapSlug := builtin]
    {
      builtin := BuiltinOrigin(lookup);
      origins := map[MinimapOrigin.MinimapSlug := BuiltinOrigin(lookup)];
    }

    /** Registers an origin under its slug, once the slug is validated. */
    method Register(o: DependencyOrigin) returns (r: Result<(), Error>)
      requires Valid()
      modifies this
      ensures Valid()
      ensures r == ValidateOriginSlug(o.slug)
      ensures origins == Registered(old(origins), o)
    {
      r := ValidateOriginSlug(o.slug);
      if r.Err? {
        return;
      }
      origins := origins[o.slug := o];
    }

    /** The status of `endpoint` at the origin named `slug`. */
    method Status(slug: string, endpoint: string) returns (r: Result<DependencyStatus, Error>)
      requires Valid()
      ensures r == Resolve(origins, slug, endpoint)
    {
      if slug == ReservedSlug {
        return Err(MalformedOrigin(slug));
      }
      if slug !in origins {
        return Err(UnknownOrigin(slug));
      }
      match origins[slug].query(endpoint)
      case Ok(s) => r := Ok(s);
      case Err(e) => r := Err(Origin(e));
    }
  }
}
