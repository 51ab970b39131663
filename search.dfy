/** The storage search: a binary search over the quantities
    0 .. MAX_QUANTITY + 1, one probe per step, that reports the largest
    quantity the cart accepts, or that it is at least MAX_QUANTITY. */
module StorageSearch {
  import opened CartCheck

  /** Largest quantity the search reports exactly. */
  const MAX_QUANTITY: int := 20000

  /** Upper bound on the number of probes one search makes
      (2^15 is the first power of two above MAX_QUANTITY + 2). */
  const MAX_PROBES: nat := 15

  /** The window [left, right] shown on the label before each probe. */
  datatype Window = Window(left: int, right: int)

  /** What the label finally shows. */
  datatype Outcome = Failed | Exact(count: int) | AtLeast(bound: int)

  /** The status `check` returns for `quantity` on this server. */
  function StatusOf(server: Server, quantity: int): int {
    CheckStatus(server, quantity, ATTEMPT)
  }

  /** The server's stock is `s`: each quantity in the search range is
      accepted exactly when it does not exceed `s`, and rejected otherwise. */
  ghost predicate HasStock(server: Server, s: int) {
    s >= 0 &&
    forall q :: 0 <= q <= MAX_QUANTITY + 1 ==>
      StatusOf(server, q) == (if q <= s then ACCEPTED else EXCEEDED)
  }

  /** What the search reports for a server whose stock is `s`. */
  function Expected(s: int): Outcome {
    if s <= MAX_QUANTITY then Exact(s) else AtLeast(MAX_QUANTITY)
  }

  /** The final label for the quantity the search settled on: exact up to
      MAX_QUANTITY, and beyond that only the bound MAX_QUANTITY, which never
      overstates the quantity. */
  function Report(quantity: int): (o: Outcome)
    ensures o.Exact? <==> quantity <= MAX_QUANTITY
    ensures o.Exact? ==> o.count == quantity
    ensures o.AtLeast? ==> o.bound == MAX_QUANTITY < quantity
  {
    if quantity >= MAX_QUANTITY + 1 then AtLeast(MAX_QUANTITY) else Exact(quantity)
  }

  /** The widest window left after `n` probes: each probe at least halves
      the window, which starts MAX_QUANTITY + 2 wide. */
  function Width(n: nat): nat {
    if n == 0 then MAX_QUANTITY + 2 else Width(n - 1) / 2
  }

  /** After MAX_PROBES halvings no window is left. */
  lemma {:induction false} WidthExhausted(n: nat)
    requires n >= MAX_PROBES
    ensures Width(n) == 0
  {
    if n > MAX_PROBES {
      WidthExhausted(n - 1);
    } else {
      assert Width(5) == 625;
      assert Width(10) == 19;
      assert Width(15) == 0;
    }
  }

  /** No quantity occurs twice. */
  predicate Distinct(s: seq<int>) {
    forall j, k :: 0 <= j < k < |s| ==> s[j] != s[k]
  }

  /** Number of quantities in a window. */
  function Size(w: Window): int {
    w.right - w.left + 1
  }

  /** The quantity probed for a window: `Math.floor(left + (right - left) / 2)`,
      which on a non-empty window is Euclidean division of a non-negative
      number. */
  function Mid(w: Window): int {
    w.left + (w.right - w.left) / 2
  }

  /** `inner` lies inside `outer` and holds fewer quantities. */
  predicate Narrows(inner: Window, outer: Window) {
    outer.left <= inner.left && inner.right <= outer.right && Size(inner) < Size(outer)
  }

  /** A status the search goes on with: accepted or rejected. */
  predicate Answered(status: int) {
    status == ACCEPTED || status == EXCEEDED
  }

  /** Some probe of `quantity` got `status` back; `statuses[k]` is what the
      probe of `probes[k]` got. */
  ghost predicate Saw(probes: seq<int>, statuses: seq<int>, quantity: int, status: int) {
    exists k :: 0 <= k < |probes| && k < |statuses| && probes[k] == quantity && statuses[k] == status
  }

  /** Recording one more probe keeps every answer seen and adds its own. */
  lemma SawAppend(probes: seq<int>, statuses: seq<int>, mid: int, status: int)
    requires |probes| == |statuses|
    ensures Saw(probes + [mid], statuses + [status], mid, status)
    ensures forall q, a :: Saw(probes, statuses, q, a) ==> Saw(probes + [mid], statuses + [status], q, a)
  {
    var probes', statuses' := probes + [mid], statuses + [status];
    assert probes'[|probes|] == mid && statuses'[|probes|] == status;
    forall q, a | Saw(probes, statuses, q, a)
      ensures Saw(probes', statuses', q, a)
    {
      var k :| 0 <= k < |probes| && k < |statuses| && probes[k] == q && statuses[k] == a;
      assert probes'[k] == q && statuses'[k] == a;
    }
  }

  /** The statuses are those `check` gives for the probed quantities. */
  ghost predicate FromServer(server: Server, probes: seq<int>, statuses: seq<int>) {
    |probes| == |statuses| &&
    forall k :: 0 <= k < |probes| ==> statuses[k] == StatusOf(server, probes[k])
  }

  /** The statuses `check` gives for `probes`, in order. */
  ghost function Statuses(server: Server, probes: seq<int>): seq<int>
    decreases |probes|
  {
    if |probes| == 0 then []
    else Statuses(server, probes[..|probes| - 1]) + [StatusOf(server, probes[|probes| - 1])]
  }

  lemma {:induction false} StatusesMeaning(server: Server, probes: seq<int>)
    ensures FromServer(server, probes, Statuses(server, probes))
    decreases |probes|
  {
    if |probes| > 0 {
      var before := probes[..|probes| - 1];
      StatusesMeaning(server, before);
      forall k | 0 <= k < |before|
        ensures Statuses(server, probes)[k] == StatusOf(server, probes[k])
      {
        assert before[k] == probes[k];
      }
    }
  }

  lemma StatusesStep(server: Server, probes: seq<int>, mid: int)
    ensures Statuses(server, probes + [mid]) == Statuses(server, probes) + [StatusOf(server, mid)]
  {
    assert (probes + [mid])[..|probes|] == probes;
  }

  /** The whole search range, the first window. */
  const INITIAL: Window := Window(0, MAX_QUANTITY + 1)

  /** The window kept after an accepted middle. */
  function Upper(w: Window): Window {
    Window(Mid(w) + 1, w.right)
  }

  /** The window kept after a rejected middle. */
  function Lower(w: Window): Window {
    Window(w.left, Mid(w) - 1)
  }

  /** `inner` is what is left of the non-empty window `outer` after its
      middle was probed. */
  predicate Halves(inner: Window, outer: Window) {
    outer.left <= outer.right && (inner == Upper(outer) || inner == Lower(outer))
  }

  /** Each window is a half of the one before it. */
  ghost predicate Chain(windows: seq<Window>) {
    forall j, k :: 0 <= j && j + 1 == k < |windows| ==> Halves(windows[k], windows[j])
  }

  /** Appending a half of the last window extends the chain. */
  lemma ChainStep(windows: seq<Window>, w: Window)
    requires Chain(windows) && |windows| > 0 && Halves(w, windows[|windows| - 1])
    ensures Chain(windows + [w])
  {
  }

  /** The half of `w` the search keeps after its middle got `status`: the
      upper half after an accepted middle, the lower half after a rejected
      one. */
  function Kept(w: Window, status: int): Window {
    if status == ACCEPTED then Upper(w) else Lower(w)
  }

  /** Each window after the first is the half of the one before it that
      the answer to that window's probe keeps. */
  ghost predicate Steered(windows: seq<Window>, statuses: seq<int>) {
    forall j, k :: 0 <= j && j + 1 == k < |windows| && j < |statuses| ==>
      windows[k] == Kept(windows[j], statuses[j])
  }

  /** Keeping the half the last answer selects extends a steered sequence
      of windows. */
  lemma SteeredStep(windows: seq<Window>, statuses: seq<int>, status: int)
    requires Steered(windows, statuses) && |windows| == |statuses| + 1
    ensures Steered(windows + [Kept(windows[|windows| - 1], status)], statuses + [status])
  {
    var windows', statuses' := windows + [Kept(windows[|windows| - 1], status)], statuses + [status];
    forall j, k | 0 <= j && j + 1 == k < |windows'| && j < |statuses'|
      ensures windows'[k] == Kept(windows'[j], statuses'[j])
    {
      if k < |windows| {
        assert windows'[j] == windows[j] && windows'[k] == windows[k] && statuses'[j] == statuses[j];
      }
    }
  }

  /** The search ran until the half kept after its last probe was empty. */
  predicate Exhausted(progress: seq<Window>, statuses: seq<int>) {
    |progress| > 0 && |statuses| == |progress| &&
    Size(Kept(progress[|progress| - 1], statuses[|statuses| - 1])) == 0
  }

  /** A window's halves lie inside it, avoid its middle and are at most
      half as wide. */
  lemma HalvesShape(inner: Window, outer: Window)
    requires Halves(inner, outer)
    ensures outer.left <= inner.left && inner.right <= outer.right
    ensures inner.left <= inner.right + 1
    ensures Mid(outer) < inner.left || inner.right < Mid(outer)
    ensures 2 * Size(inner) <= Size(outer)
  {
  }

  /** The `k`-th window of a search starting from the whole range lies
      within it and is at most `Width(k)` wide. */
  lemma {:induction false} WindowBounds(windows: seq<Window>, k: int)
    requires |windows| > 0 && windows[0] == INITIAL && Chain(windows) && 0 <= k < |windows|
    ensures 0 <= windows[k].left <= windows[k].right + 1 <= MAX_QUANTITY + 2
    ensures Size(windows[k]) <= Width(k)
    decreases k
  {
    if k > 0 {
      WindowBounds(windows, k - 1);
      HalvesShape(windows[k], windows[k - 1]);
    }
  }

  /** A later window of a search lies inside an earlier one, is smaller
      and avoids its middle. */
  lemma {:induction false} WindowsNested(windows: seq<Window>, j: int, k: int)
    requires Chain(windows) && 0 <= j < k < |windows|
    ensures Narrows(windows[k], windows[j])
    ensures Mid(windows[j]) < windows[k].left || windows[k].right < Mid(windows[j])
    decreases k - j
  {
    HalvesShape(windows[k], windows[k - 1]);
    if j < k - 1 {
      WindowsNested(windows, j, k - 1);
    }
  }

  /** Every probe is the middle of its window. */
  predicate Centred(progress: seq<Window>, probes: seq<int>) {
    |progress| == |probes| && forall k :: 0 <= k < |probes| ==> probes[k] == Mid(progress[k])
  }

  /** What the answers so far establish: every probe was accepted or
      rejected, the quantity just below the open window was accepted and the
      one just above it was rejected (unless the window touches an end of
      the range). */
  ghost predicate Answers(left: int, right: int, probes: seq<int>, statuses: seq<int>) {
    |probes| == |statuses| &&
    (forall k :: 0 <= k < |statuses| ==> Answered(statuses[k])) &&
    (left == 0 || Saw(probes, statuses, left - 1, ACCEPTED)) &&
    (right == MAX_QUANTITY + 1 || Saw(probes, statuses, right + 1, EXCEEDED))
  }

  /** An accepted middle moves the lower end up past it, a rejected one
      moves the upper end down below it, and what the answers establish
      still holds. */
  lemma AnswersStep(left: int, right: int, probes: seq<int>, statuses: seq<int>, mid: int, status: int)
    requires Answers(left, right, probes, statuses) && Answered(status)
    ensures status == ACCEPTED ==> Answers(mid + 1, right, probes + [mid], statuses + [status])
    ensures status == EXCEEDED ==> Answers(left, mid - 1, probes + [mid], statuses + [status])
  {
    SawAppend(probes, statuses, mid, status);
  }

  /** Why the final label is right, in terms of the answers seen. */
  ghost predicate Justified(probes: seq<int>, statuses: seq<int>, outcome: Outcome) {
    match outcome
    case Failed =>
      // the last probe got a status that is neither accepted nor rejected
      |statuses| > 0 && !Answered(statuses[|statuses| - 1])
    case Exact(n) =>
      // the count was accepted (0 needs no probe) and the next quantity up was
      // rejected; a rejected 0 leaves the count at 0
      0 <= n <= MAX_QUANTITY &&
      (n == 0 || Saw(probes, statuses, n, ACCEPTED)) &&
      (Saw(probes, statuses, n + 1, EXCEEDED) || (n == 0 && Saw(probes, statuses, 0, EXCEEDED)))
    case AtLeast(b) =>
      // the ceiling marker means the quantity past the ceiling was accepted
      b == MAX_QUANTITY && Saw(probes, statuses, MAX_QUANTITY + 1, ACCEPTED)
  }

  /** A server that leaves some quantity in range unanswered has no stock
      in the sense of `HasStock`. */
  lemma UnansweredHasNoStock(server: Server, q: int)
    requires 0 <= q <= MAX_QUANTITY + 1 && !Answered(StatusOf(server, q))
    ensures forall s :: !HasStock(server, s)
  {
    forall s ensures !HasStock(server, s) {
      assert StatusOf(server, q) != (if q <= s then ACCEPTED else EXCEEDED);
    }
  }

  /** What the server with stock `s` answered for a quantity in range. */
  lemma SawStock(server: Server, s: int, probes: seq<int>, statuses: seq<int>, q: int, a: int)
    requires HasStock(server, s) && FromServer(server, probes, statuses)
    requires 0 <= q <= MAX_QUANTITY + 1 && Saw(probes, statuses, q, a)
    ensures a == if q <= s then ACCEPTED else EXCEEDED
  {
    var k :| 0 <= k < |probes| && k < |statuses| && probes[k] == q && statuses[k] == a;
    assert StatusOf(server, q) == (if q <= s then ACCEPTED else EXCEEDED);
  }

  /** Against a server with stock `s`, a justified count is `s`, and a
      justified ceiling marker means `s` is beyond MAX_QUANTITY. */
  lemma StockDecides(server: Server, s: int, probes: seq<int>, statuses: seq<int>, outcome: Outcome)
    requires HasStock(server, s) && FromServer(server, probes, statuses)
    requires Justified(probes, statuses, outcome) && !outcome.Failed?
    ensures outcome == Expected(s)
  {
    match outcome
    case Exact(n) =>
      if n > 0 {
        SawStock(server, s, probes, statuses, n, ACCEPTED);
      }
      if Saw(probes, statuses, n + 1, EXCEEDED) {
        SawStock(server, s, probes, statuses, n + 1, EXCEEDED);
      } else {
        SawStock(server, s, probes, statuses, 0, EXCEEDED);
      }
    case AtLeast(b) =>
      SawStock(server, s, probes, statuses, MAX_QUANTITY + 1, ACCEPTED);
  }

  /** What the label and the requests show of the search, whatever the server
      answers: one window per probe, the probe at the window's middle, every
      probe in 0 .. MAX_QUANTITY + 1 and none repeated, the windows starting
      at the whole range, nested, strictly shrinking and at least halving each
      time. */
  ghost predicate Probed(progress: seq<Window>, probes: seq<int>) {
    |progress| == |probes| <= MAX_PROBES &&
    (forall k :: 0 <= k < |probes| ==>
       progress[k].left <= probes[k] <= progress[k].right && probes[k] == Mid(progress[k])) &&
    (forall k :: 0 <= k < |probes| ==> 0 <= probes[k] <= MAX_QUANTITY + 1) &&
    Distinct(probes) &&
    (|progress| > 0 ==> progress[0] == INITIAL) &&
    (forall j, k :: 0 <= j < k < |progress| ==> Narrows(progress[k], progress[j])) &&
    (forall k :: 0 <= k < |progress| ==> Size(progress[k]) <= Width(k))
  }

  /** Non-empty windows that halve as `Width` says are at most MAX_PROBES. */
  lemma FewWindows(windows: seq<Window>)
    requires forall k :: 0 <= k < |windows| ==> windows[k].left <= windows[k].right && Size(windows[k]) <= Width(k)
    ensures |windows| <= MAX_PROBES
  {
    if |windows| > MAX_PROBES {
      WidthExhausted(MAX_PROBES);
    }
  }

  /** The windows of a search shown before its probes, followed by the
      window still open, have the observable shape. */
  lemma ChainProbed(progress: seq<Window>, probes: seq<int>, open: Window)
    requires (progress + [open])[0] == INITIAL && Chain(progress + [open]) && Centred(progress, probes)
    ensures Probed(progress, probes)
  {
    var windows := progress + [open];
    forall k | 0 <= k < |progress|
      ensures progress[k].left <= probes[k] <= progress[k].right
      ensures 0 <= probes[k] <= MAX_QUANTITY + 1 && Size(progress[k]) <= Width(k)
    {
      WindowBounds(windows, k);
      assert Halves(windows[k + 1], windows[k]);
    }
    forall j, k | 0 <= j < k < |progress|
      ensures Narrows(progress[k], progress[j]) && probes[j] != probes[k]
    {
      WindowsNested(windows, j, k);
    }
    FewWindows(progress);
  }

  /** The state of the search before each probe: [left, right] is the
      window still open, `progress` the windows probed so far, `probes`
      their middles, `statuses` what `check` returned for them, and
      `quantity` the largest quantity accepted so far. */
  ghost predicate Searching(server: Server, left: int, right: int, quantity: int,
                            progress: seq<Window>, probes: seq<int>, statuses: seq<int>) {
    0 <= left <= right + 1 <= MAX_QUANTITY + 2 &&
    (progress + [Window(left, right)])[0] == INITIAL &&
    Chain(progress + [Window(left, right)]) &&
    Steered(progress + [Window(left, right)], statuses) &&
    Centred(progress, probes) &&
    Answers(left, right, probes, statuses) &&
    statuses == Statuses(server, probes) &&
    quantity == if left == 0 then 0 else left - 1
  }

  /** Nothing probed yet: the window is the whole range. */
  lemma SearchingInitially(server: Server)
    ensures Searching(server, 0, MAX_QUANTITY + 1, 0, [], [], [])
  {
  }

  /** What a search that stopped on a status neither accepted nor rejected
      shows: the observable shape, each answer steering the next window,
      the statuses `check` gave, every probe but the last answered, the
      failure label justified, and a server with no stock in the sense of
      `HasStock`. */
  ghost predicate Stopped(server: Server, progress: seq<Window>, probes: seq<int>, statuses: seq<int>) {
    Probed(progress, probes) &&
    Steered(progress, statuses) &&
    FromServer(server, probes, statuses) &&
    (forall k :: 0 <= k < |statuses| - 1 ==> Answered(statuses[k])) &&
    Justified(probes, statuses, Failed) &&
    forall s :: !HasStock(server, s)
  }

  /** A probe that is neither accepted nor rejected ends the search: the
      windows so far have the observable shape, the earlier probes were all
      answered, and the server has no stock in the sense of `HasStock`. */
  lemma SearchingFails(server: Server, left: int, right: int, quantity: int,
                       progress: seq<Window>, probes: seq<int>, statuses: seq<int>, mid: int, res: int)
    requires Searching(server, left, right, quantity, progress, probes, statuses) && left <= right
    requires mid == Mid(Window(left, right)) && res == StatusOf(server, mid) && !Answered(res)
    ensures Stopped(server, progress + [Window(left, right)], probes + [mid], statuses + [res])
  {
    var open := Window(left, right);
    var progress' := progress + [open];
    ChainStep(progress', Upper(open));
    assert (progress' + [Upper(open)])[0] == INITIAL;
    ChainProbed(progress', probes + [mid], Upper(open));
    forall j, k | 0 <= j && j + 1 == k < |progress'| && j < |statuses + [res]|
      ensures progress'[k] == Kept(progress'[j], (statuses + [res])[j])
    {
      assert (statuses + [res])[j] == statuses[j];
    }
    StatusesStep(server, probes, mid);
    StatusesMeaning(server, probes + [mid]);
    UnansweredHasNoStock(server, mid);
  }

  /** One probe of the middle of a non-empty window: when it is accepted or
      rejected the window keeps its upper or lower half and the state is
      again one the search can be in; otherwise the search has stopped. */
  lemma SearchingStep(server: Server, left: int, right: int, quantity: int,
                      progress: seq<Window>, probes: seq<int>, statuses: seq<int>, mid: int, res: int)
    requires Searching(server, left, right, quantity, progress, probes, statuses) && left <= right
    requires mid == Mid(Window(left, right)) && res == StatusOf(server, mid)
    ensures res == ACCEPTED ==>
      Searching(server, mid + 1, right, if quantity > mid then quantity else mid,
                progress + [Window(left, right)], probes + [mid], statuses + [res])
    ensures res == EXCEEDED ==>
      Searching(server, left, mid - 1, quantity,
                progress + [Window(left, right)], probes + [mid], statuses + [res])
    ensures !Answered(res) ==>
      Stopped(server, progress + [Window(left, right)], probes + [mid], statuses + [res])
  {
    var open := Window(left, right);
    var progress' := progress + [open];
    assert (progress' + [Upper(open)])[0] == INITIAL && (progress' + [Lower(open)])[0] == INITIAL;
    StatusesStep(server, probes, mid);
    if res == ACCEPTED || res == EXCEEDED {
      ChainStep(progress', Upper(open));
      ChainStep(progress', Lower(open));
      SteeredStep(progress', statuses, res);
      AnswersStep(left, right, probes, statuses, mid, res);
    } else {
      SearchingFails(server, left, right, quantity, progress, probes, statuses, mid, res);
    }
  }

  /** Once the window is empty, every probe was answered, the label for
      `quantity` is justified by the answers, and against a server with stock
      `s` the quantity is `s`, or MAX_QUANTITY + 1 when `s` is beyond the
      range, so that the label reports `s` or the ceiling marker. */
  lemma Settled(server: Server, left: int, right: int, quantity: int,
                progress: seq<Window>, probes: seq<int>, statuses: seq<int>)
    requires Searching(server, left, right, quantity, progress, probes, statuses) && left > right
    ensures Probed(progress, probes)
    ensures Steered(progress, statuses) && Exhausted(progress, statuses)
    ensures FromServer(server, probes, statuses)
    ensures forall k :: 0 <= k < |statuses| ==> Answered(statuses[k])
    ensures Justified(probes, statuses, Report(quantity))
    ensures forall s :: HasStock(server, s) ==>
      quantity == (if s <= MAX_QUANTITY then s else MAX_QUANTITY + 1) && Report(quantity) == Expected(s)
  {
    var outcome := Report(quantity);
    StatusesMeaning(server, probes);
    ChainProbed(progress, probes, Window(left, right));
    var windows := progress + [Window(left, right)];
    assert |progress| > 0;
    assert windows[|progress|] == Kept(windows[|progress| - 1], statuses[|progress| - 1]);
    forall j, k | 0 <= j && j + 1 == k < |progress| && j < |statuses|
      ensures progress[k] == Kept(progress[j], statuses[j])
    {
      assert windows[j] == progress[j] && windows[k] == progress[k];
    }
    assert Justified(probes, statuses, outcome);
    forall s | HasStock(server, s)
      ensures outcome == Expected(s)
    {
      StockDecides(server, s, probes, statuses, outcome);
    }
  }

  /** The search.  `progress` is the window shown before each probe,
      `probes` the quantity each probe asks for, `statuses` what `check`
      returned for it, `outcome` the final label and `cleanedUp` whether the
      closing cart clear is reached. */
  method Search(server: Server)
    returns (progress: seq<Window>, probes: seq<int>, statuses: seq<int>, outcome: Outcome, cleanedUp: bool)
    ensures Probed(progress, probes)
    ensures FromServer(server, probes, statuses)
    // after each answer the search keeps the half that answer selects, and it
    // stops only on a status that is neither accepted nor rejected, or once
    // the half kept is empty
    ensures Steered(progress, statuses)
    ensures !outcome.Failed? ==> Exhausted(progress, statuses)
    // every probe but the last was accepted or rejected; any other status ends the search
    ensures forall k :: 0 <= k < |statuses| - 1 ==> Answered(statuses[k])
    ensures !outcome.Failed? ==> forall k :: 0 <= k < |statuses| ==> Answered(statuses[k])
    ensures cleanedUp <==> !outcome.Failed?
    ensures Justified(probes, statuses, outcome)
    // against a server with stock s, the label reports s, or the ceiling marker
    ensures forall s :: HasStock(server, s) ==> outcome == Expected(s)
  {
    var left := 0;
    var right := MAX_QUANTITY + 1;
    var quantity := 0;
    progress, probes, statuses := [], [], [];
    SearchingInitially(server);
    while left <= right
      invariant Searching(server, left, right, quantity, progress, probes, statuses)
      decreases right - left + 1
    {
      var mid := Mid(Window(left, right));
      var res, _ := Check(server, mid, ATTEMPT);
      SearchingStep(server, left, right, quantity, progress, probes, statuses, mid, res);
      progress, probes, statuses := progress + [Window(left, right)], probes + [mid], statuses + [res];
      if res == ACCEPTED {
        left := mid + 1;
        quantity := if quantity > mid then quantity else mid;
      } else if res == EXCEEDED {
        right := mid - 1;
      } else {
        return progress, probes, statuses, Failed, false;
      }
    }
    Settled(server, left, right, quantity, progress, probes, statuses);
    outcome := Report(quantity);
    cleanedUp := true;
  }
}
