/** `PartyInvitations.invitedCustomersOrThrow`: read the customers, keep
    those strictly closer to the party than the radius, and pass the
    reader's warnings on. The reading and the distance on the globe are
    parameters: `read` is what reading the customers gave, and `distance`
    stands for the great-circle distance. */
module PartyInvitations {

  import opened Wrappers
  import opened Customers
  import opened D = Distance
  import opened CrmExport

  /** `Cannot get customers from file. ...`, with the error the reading
      raised. */
  datatype InvitationError<E> = CannotGetCustomers(cause: E)

  /** `customers.filter(...)`: the customers whose distance from
      `position` is less than `radius`, in their original order. */
  function WithinRadius(customers: seq<Customer>, position: Position, radius: Distance,
                        distance: (Position, Position) -> Distance): (r: seq<Customer>)
    ensures |r| <= |customers|
  {
    if customers == [] then []
    else
      var rest := WithinRadius(customers[1..], position, radius, distance);
      if distance(position, customers[0].position).LessThan(radius) then [customers[0]] + rest else rest
  }

  /** The whole call: a failed read fails the call with the cause wrapped
      and no customers; otherwise the customers are filtered and the
      warnings returned as the reader gave them. */
  function InvitedCustomers<E>(read: Result<ParseResult, E>, position: Position, radius: Distance,
                               distance: (Position, Position) -> Distance): (r: Result<ParseResult, InvitationError<E>>)
    ensures r.Failure? <==> read.Failure?
    ensures read.Failure? ==> r.error == CannotGetCustomers(read.error)
    ensures read.Success? ==> r.value.warnings == read.value.warnings
    ensures read.Success? ==> r.value.customers == WithinRadius(read.value.customers, position, radius, distance)
  {
    match read
    case Failure(e) => Failure(CannotGetCustomers(e))
    case Success(found) =>
      Success(ParseResult(WithinRadius(found.customers, position, radius, distance), found.warnings))
  }

  /** A customer is invited exactly when it was read and its distance is
      strictly less than the radius. */
  lemma {:induction false} WithinRadiusMembers(customers: seq<Customer>, position: Position, radius: Distance,
                                               distance: (Position, Position) -> Distance)
    ensures forall c :: (c in WithinRadius(customers, position, radius, distance)
                         <==> c in customers && distance(position, c.position).LessThan(radius))
  {
    if customers != [] {
      WithinRadiusMembers(customers[1..], position, radius, distance);
      assert forall c :: c in customers <==> c == customers[0] || c in customers[1..];
    }
  }

  /** A customer at the radius or beyond it, in particular at exactly the
      radius, is not invited. */
  lemma NotWithinRadius(c: Customer, customers: seq<Customer>, position: Position, radius: Distance,
                        distance: (Position, Position) -> Distance)
    requires radius.Km() <= distance(position, c.position).Km()
    ensures c !in WithinRadius(customers, position, radius, distance)
  {
    WithinRadiusMembers(customers, position, radius, distance);
  }

  /** `a` is `b` with some elements left out, the others in their order. */
  predicate IsSubsequence<T(==)>(a: seq<T>, b: seq<T>)
    decreases |b|
  {
    a == [] || (b != [] && ((a[0] == b[0] && IsSubsequence(a[1..], b[1..])) || IsSubsequence(a, b[1..])))
  }

  /** The filter keeps the order of the customers it keeps. */
  lemma {:induction false} WithinRadiusKeepsOrder(customers: seq<Customer>, position: Position, radius: Distance,
                                                  distance: (Position, Position) -> Distance)
    ensures IsSubsequence(WithinRadius(customers, position, radius, distance), customers)
  {
    if customers != [] {
      var rest := WithinRadius(customers[1..], position, radius, distance);
      WithinRadiusKeepsOrder(customers[1..], position, radius, distance);
      if distance(position, customers[0].position).LessThan(radius) {
        assert ([customers[0]] + rest)[1..] == rest;
      }
    }
  }

  /** Filtering the invited customers again with the same party and radius
      changes nothing. */
  lemma {:induction false} WithinRadiusIdempotent(customers: seq<Customer>, position: Position, radius: Distance,
                                                  distance: (Position, Position) -> Distance)
    ensures var r := WithinRadius(customers, position, radius, distance);
      WithinRadius(r, position, radius, distance) == r
  {
    if customers != [] {
      var rest := WithinRadius(customers[1..], position, radius, distance);
      WithinRadiusIdempotent(customers[1..], position, radius, distance);
      if distance(position, customers[0].position).LessThan(radius) {
        assert ([customers[0]] + rest)[1..] == rest;
      }
    }
  }

  /** The filter works customer by customer: filtering a concatenation
      concatenates the filtered parts. */
  lemma {:induction false} WithinRadiusAppend(a: seq<Customer>, b: seq<Customer>, position: Position, radius: Distance,
                                              distance: (Position, Position) -> Distance)
    ensures WithinRadius(a + b, position, radius, distance)
      == WithinRadius(a, position, radius, distance) + WithinRadius(b, position, radius, distance)
  {
    if a == [] {
      assert a + b == b;
    } else {
      var c, t := a[0], a[1..];
      assert a == [c] + t && a + b == [c] + (t + b);
      WithinRadiusAppend(t, b, position, radius, distance);
      WithinRadiusCons(c, t + b, position, radius, distance);
      WithinRadiusCons(c, t, position, radius, distance);
      var kept := if distance(position, c.position).LessThan(radius) then [c] else [];
      var rt, rb := WithinRadius(t, position, radius, distance), WithinRadius(b, position, radius, distance);
      assert kept + (rt + rb) == (kept + rt) + rb;
    }
  }

  /** The filter on a list with a first customer. */
  lemma WithinRadiusCons(c: Customer, rest: seq<Customer>, position: Position, radius: Distance,
                         distance: (Position, Position) -> Distance)
    ensures WithinRadius([c] + rest, position, radius, distance)
      == (if distance(position, c.position).LessThan(radius) then [c] else [])
         + WithinRadius(rest, position, radius, distance)
  {
    assert ([c] + rest)[0] == c && ([c] + rest)[1..] == rest;
  }
}
