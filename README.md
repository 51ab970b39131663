# Chiikawa market storage checker — a Dafny model of the stock probe

The userscript `chiikawa-market-storage-checker.user.js` finds out how many
units of a product the shop still holds. The shop does not show the number, so
the script learns it by trying to put quantities into the cart. It runs a binary
search over the quantities `0 .. MAX_QUANTITY + 1`, where `MAX_QUANTITY = 20000`.

- **Probe (`check`).** Each probe clears the cart, then makes up to `ATTEMPT`
  add requests for the middle quantity `mid`. It returns:
  - 200 as soon as one request is accepted;
  - otherwise the status of the last request;
  - -1 if anything throws.
- **Search.** The loop reacts to each probe:
  - 200 (accepted) moves the lower end `left` up past `mid` and raises `quantity`;
  - 422 (exceeds the stock) moves the upper end `right` down below `mid`;
  - any other status shows the failure label and stops.
- **Result.** When the window is empty, the label shows `quantity`. If
  `quantity` is above `MAX_QUANTITY`, it shows "at least MAX_QUANTITY" instead.
  The cart is then cleared once more.

The model has two modules:

- **`CartCheck` (`check.dfy`): the probe.**
  - The network is a `Server` value. It says, per quantity, whether clearing the
    cart throws, and what each add try yields: an HTTP status or a thrown error.
  - `Check` is the retry loop as a method. It is proved equal to the
    specification functions `CheckStatus` and `CheckRequests`.
  - `FirstStop` and the lemma `CheckStatusMeaning` say what those functions mean.
- **`StorageSearch` (`search.dfy`): the search.**
  - `Search` is the `while` loop as a method. It calls `Check` for each probe.
  - It returns what the user and the shop can observe:
    - the window shown before each probe;
    - the quantities probed;
    - the statuses `check` returned;
    - the final label;
    - whether the closing cart clear is reached.
  - Its contract has three parts:
    - the shape of the search, whatever the server answers: after each answer
      the search keeps the half that answer selects, and it stops only on an
      unanswered probe or once the half kept is empty;
    - answers that justify the label;
    - for a server whose stock is `s` (quantities up to `s` accepted, above `s`
      rejected), the label reports `s`, or the ceiling marker when `s` is beyond
      `MAX_QUANTITY`.

## Model

| member | source | states |
|---|---|---|
| CartCheck.FirstStop | chiikawa-market-storage-checker.user.js:42-59 | the try that ends the retry loop is the first one in range that threw or was accepted; when there is none, no try in range threw or was accepted |
| CartCheck.CheckStatusMeaning | chiikawa-market-storage-checker.user.js:37-64 | `check` returns 200 exactly when clearing the cart did not throw and some try was accepted before any try threw; it returns -1 when clearing threw, when a try threw before any was accepted, or when no try was made; otherwise it returns the last try's status |
| CartCheck.CheckRequests | chiikawa-market-storage-checker.user.js:40-59 | a probe sends at most `attempts` add requests, none when clearing the cart throws, and stops right after the first try that threw or was accepted |
| CartCheck.Check | chiikawa-market-storage-checker.user.js:37-64 | the retry loop with its early returns yields exactly the status and request count that `CheckStatus` and `CheckRequests` specify |
| StorageSearch.Report | chiikawa-market-storage-checker.user.js:115-119 | the label is exact exactly when the quantity is at most MAX_QUANTITY and then shows the quantity; otherwise it shows the bound MAX_QUANTITY, which is below the quantity |
| StorageSearch.WidthExhausted | chiikawa-market-storage-checker.user.js:98-101 | fifteen halvings of the initial MAX_QUANTITY + 2 wide range leave no window |
| StorageSearch.HalvesShape | chiikawa-market-storage-checker.user.js:102-109 | either half kept after probing the middle of a non-empty window lies inside it, leaves out the middle, and is at most half as wide |
| StorageSearch.ChainStep | chiikawa-market-storage-checker.user.js:105-109 | keeping a half of the current window extends the sequence of windows shown |
| StorageSearch.WindowBounds | chiikawa-market-storage-checker.user.js:98-109 | the k-th window lies within 0 .. MAX_QUANTITY + 1 and is at most `Width(k)` wide |
| StorageSearch.WindowsNested | chiikawa-market-storage-checker.user.js:101-109 | every later window lies inside every earlier one, is smaller, and leaves out that window's middle |
| StorageSearch.FewWindows | chiikawa-market-storage-checker.user.js:101-113 | at most MAX_PROBES = 15 non-empty windows can follow each other |
| StorageSearch.ChainProbed | chiikawa-market-storage-checker.user.js:98-113 | the windows shown and the quantities probed have the observable shape `Probed`: at most 15 probes, each at its window's middle, within 0 .. MAX_QUANTITY + 1, none repeated, windows nested and at least halving |
| StorageSearch.SawAppend | chiikawa-market-storage-checker.user.js:104 | recording a probe keeps every answer already seen and adds its own |
| StorageSearch.StatusesMeaning | chiikawa-market-storage-checker.user.js:104 | the statuses recorded for a sequence of probes are, index by index, the status `check` returns for each probed quantity |
| StorageSearch.StatusesStep | chiikawa-market-storage-checker.user.js:104 | one more probe appends the status `check` returns for it to the recorded statuses |
| StorageSearch.SteeredStep | chiikawa-market-storage-checker.user.js:105-109 | keeping the upper half after a 200 and the lower half after any other answer extends a sequence of windows in which each answer selects the next window |
| StorageSearch.AnswersStep | chiikawa-market-storage-checker.user.js:104-109 | after an accepted middle the quantity just below the new lower end was accepted, and after a rejected middle the quantity just above the new upper end was rejected |
| StorageSearch.SearchingInitially | chiikawa-market-storage-checker.user.js:98-100 | the initial window 0 .. MAX_QUANTITY + 1 with quantity 0 satisfies the loop invariant `Searching` |
| StorageSearch.SearchingStep | chiikawa-market-storage-checker.user.js:101-112 | an accepted probe (left := mid + 1, quantity := max(quantity, mid)) and a rejected probe (right := mid - 1) both keep `Searching`, which ties quantity to max(0, left - 1) and each window to the answer before it; any other status leaves the search `Stopped` |
| StorageSearch.UnansweredHasNoStock | chiikawa-market-storage-checker.user.js:108-112 | a server that gives a quantity in range any status other than 200 or 422 has no stock level in the sense of `HasStock` |
| StorageSearch.SearchingFails | chiikawa-market-storage-checker.user.js:110-112 | a probe with any other status ends the search `Stopped`: the observable shape kept, each window the half its predecessor's answer selects, statuses those `check` returned, every earlier probe answered, the failure justified, and no stock level fits the server |
| StorageSearch.SawStock | chiikawa-market-storage-checker.user.js:104-109 | against a server with stock s, a probe of q was accepted exactly when q <= s and was otherwise rejected |
| StorageSearch.StockDecides | chiikawa-market-storage-checker.user.js:101-119 | against a server with stock s, answers that justify a label force it to be `Exact(s)`, or `AtLeast(MAX_QUANTITY)` when s > MAX_QUANTITY |
| StorageSearch.Settled | chiikawa-market-storage-checker.user.js:101-119 | once the window is empty, each window was the half its predecessor's answer selects and the half kept after the last probe is empty, every probe was answered, the quantity below the window was accepted and the one above it rejected, which justifies the label; against a server with stock s the final quantity is s, or MAX_QUANTITY + 1 when s is beyond the range |
| StorageSearch.Search | chiikawa-market-storage-checker.user.js:97-122 | the search terminates; the first window is the whole range, every probe lies in 0 .. MAX_QUANTITY + 1 at its window's middle, never repeats, and there are at most 15; statuses are what `check` returns; after a 200 the next window is the upper half and after a 422 the lower half; a search that did not fail stops only once the half kept is empty; only the last probe may be unanswered, and then the label is the failure and the closing cart clear is not reached; otherwise the label is justified by the answers and, against a server with stock s, reports s or the ceiling marker |

## Left out

- The `fetch` calls to `/cart/clear` and `/cart/add.js`, with their headers and
  multipart bodies (lines 28-36 and 47-55). They are network I/O. The model
  stands them in with the `Server` value: whether clearing throws, and the
  status or error of each add try.
- `sleep` and `INTERVAL` (lines 17, 23-27 and 45). They only delay the probes.
- The DOM lookups of the label, SKU, product id and variant id, and the
  `window.confirm` dialog (lines 66-95). These are browser UI. A missing
  element or a declined dialog means the search never starts.
- The label text and emoji (lines 103, 111, 116 and 118). They are modelled as
  the `Window` shown before each probe and the final `Outcome`.
- The closing `clearCart` (line 122) is modelled only as being reached or not
  (`cleanedUp`). Its own network failure is not modelled.
- `chiikawa-market-storage-checker.js` is not part of this model. It only reads
  a stock attribute from the page and prints it.
- Async scheduling: the script awaits every call in turn, so the model runs the
  calls in sequence.
- JavaScript numbers are doubles. Every intermediate value of the search, such
  as `(right - left) / 2` or a `right` of -1 after a rejected 0, is an integer or
  a half-integer of magnitude at most MAX_QUANTITY + 2. A double holds each of
  these exactly, so the model uses unbounded integers.
- `Math.floor(left + (right - left) / 2)` uses Dafny's division. The operand is
  never negative inside the loop, where Euclidean and floor division agree.
- StorageSearch.Search: the server answers each quantity the same way every time.
  `Probed` proves that a search never probes a quantity twice, so one search
  loses nothing by this. Answers that change between separate runs of the script
  are not modelled.
- CartCheck.Check: `attempts` is a parameter; the script fixes it at
  `ATTEMPT = 1`, and the search calls it with that constant.
