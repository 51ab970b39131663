/** One stock probe: clear the cart, then try up to `attempts` times to add
    the given quantity, stopping at the first accepted try.  The network is
    abstracted by a `Server` that says, per quantity, whether clearing the
    cart throws and what each add try yields. */
module CartCheck {

  /** Number of add tries per probe. */
  const ATTEMPT: nat := 1

  /** Status the server gives an accepted add. */
  const ACCEPTED: int := 200
  /** Status the server gives an add that exceeds the stock. */
  const EXCEEDED: int := 422
  /** Status `check` returns when anything inside it throws. */
  const THROWN: int := -1

  datatype Option<T> = None | Some(value: T)

  /** What one `fetch` of the add endpoint yields: a response carrying an
      HTTP status, or a rejected promise (network error, blocked request). */
  datatype Reply = Status(code: int) | Thrown

  /** The cart endpoints as seen from the probe.  `clearThrows(q)` tells
      whether clearing the cart before probing `q` throws; `reply(q)(i)` is
      the outcome of the `i`-th add try for quantity `q`. */
  datatype Server = Server(clearThrows: int -> bool, reply: int -> nat -> Reply)

  /** A try that ends the retry loop: it threw, or it was accepted. */
  predicate Stops(r: Reply) {
    r.Thrown? || r.code == ACCEPTED
  }

  /** The first try in [from, to) that ends the retry loop, if any. */
  function FirstStop(reply: nat -> Reply, from: nat, to: nat): (k: Option<nat>)
    decreases to - from
    ensures k.Some? ==> from <= k.value < to && Stops(reply(k.value))
    ensures k.Some? ==> forall j :: from <= j < k.value ==> !Stops(reply(j))
    ensures k.None? ==> forall j :: from <= j < to ==> !Stops(reply(j))
  {
    if from >= to then None
    else if Stops(reply(from)) then Some(from)
    else FirstStop(reply, from + 1, to)
  }

  /** The status a probe of `quantity` reports, by cases on the first try
      that ends the loop.  With no try at all the variable holding the
      response is still undefined, reading its status throws, and the probe
      reports THROWN. */
  function CheckStatus(server: Server, quantity: int, attempts: nat): int {
    var reply := server.reply(quantity);
    if server.clearThrows(quantity) then THROWN
    else match FirstStop(reply, 0, attempts)
      case Some(k) => if reply(k).Thrown? then THROWN else ACCEPTED
      case None => if attempts == 0 then THROWN else reply(attempts - 1).code
  }

  /** What a probe's status means: ACCEPTED exactly when some try was
      accepted before any try threw; THROWN when clearing the cart threw, a
      try threw before any was accepted, or no try was made; otherwise the
      status of the last try. */
  lemma CheckStatusMeaning(server: Server, quantity: int, attempts: nat)
    ensures var status := CheckStatus(server, quantity, attempts);
      && (server.clearThrows(quantity) ==> status == THROWN)
      && (status == ACCEPTED <==>
            !server.clearThrows(quantity) &&
            exists i :: 0 <= i < attempts && server.reply(quantity)(i) == Status(ACCEPTED) &&
              forall j :: 0 <= j < i ==> server.reply(quantity)(j) != Thrown)
      && ((exists i :: 0 <= i < attempts && server.reply(quantity)(i) == Thrown &&
             forall j :: 0 <= j < i ==> server.reply(quantity)(j) != Status(ACCEPTED))
          ==> status == THROWN)
      && ((!server.clearThrows(quantity) && attempts > 0 &&
           forall j :: 0 <= j < attempts ==> !Stops(server.reply(quantity)(j)))
          ==> status == server.reply(quantity)(attempts - 1).code)
      && (attempts == 0 ==> status == THROWN)
  {
  }

  /** How many add requests a probe of `quantity` sends. */
  function CheckRequests(server: Server, quantity: int, attempts: nat): (n: nat)
    ensures n <= attempts
    ensures server.clearThrows(quantity) ==> n == 0
    ensures !server.clearThrows(quantity) ==>
      (n == attempts || (0 < n && Stops(server.reply(quantity)(n - 1))))
    ensures !server.clearThrows(quantity) ==>
      forall j :: 0 <= j < n - 1 ==> !Stops(server.reply(quantity)(j))
  {
    if server.clearThrows(quantity) then 0
    else match FirstStop(server.reply(quantity), 0, attempts)
      case Some(k) => k + 1
      case None => attempts
  }

  /** The `check` routine: clear the cart, then make up to `attempts` add
      tries, returning ACCEPTED at the first accepted one and otherwise the
      status of the last try; anything thrown yields THROWN.  `requests` is
      the number of add requests sent. */
  method Check(server: Server, quantity: int, attempts: nat) returns (status: int, requests: nat)
    ensures status == CheckStatus(server, quantity, attempts)
    ensures requests == CheckRequests(server, quantity, attempts)
  {
    if server.clearThrows(quantity) {
      return THROWN, 0;
    }
    var reply := server.reply(quantity);
    var res: Option<int> := None;
    requests := 0;
    for i := 0 to attempts
      invariant requests == i
      invariant forall j :: 0 <= j < i ==> !Stops(reply(j))
      invariant res == if i == 0 then None else Some(reply(i - 1).code)
    {
      requests := requests + 1;
      match reply(i)
      case Thrown =>
        return THROWN, requests;
      case Status(c) =>
        if c == ACCEPTED {
          return ACCEPTED, requests;
        }
        res := Some(c);
    }
    status := if res.None? then THROWN else res.value;
  }
}
