# http-science comparer, modelled in Dafny

http-science sits in front of two backends, "control" and "experiment". It forwards every
request to both and checks whether the two responses agree. This project models the two pure
parts of that work:

- **The response comparator** (`science/compare.go`). Header cleanup removes headers that
  differ for harmless reasons and resets the framing fields. The comparator then tests status
  codes, headers and bodies. A body test is byte-exact first and falls back to JSON structural
  equality. That equality has a strict mode (`reflect.DeepEqual`) and a weak mode
  (`msiAreEqual` / `sliceAreEqual`) that ignores array order.
- **The diff statistics update** (`science/correctness.go`). A failed forward is replaced by a
  sentinel dump and the code -1. Every request is counted. On a mismatch, the handler counts a
  diff, bumps one cell of the experiment-code × control-code matrix and appends a record to
  the diff log.

Layout:

- `json.dfy` holds the decoded JSON value:
  `Null | Bool | Num | Str | Arr(seq) | Obj(map<string, Json>)`.
- `json_equality.dfy` holds the mode-parameterised equality. It has four mutually recursive
  predicates that recurse on the control value: `ValueEq`, `SliceEq`, `HasMatch` (the inner
  scan of the weak array rule) and `MapEq`. It also has the two Go loops as methods, proved
  to compute those predicates.
- `compare.dfy` holds cleanup and the code, header and body tests. `IsSimplyEqual`
  (`isSimplyEqual`, compare.go:38-41) is a helper whose behaviour the contract of
  `BodiesAreEqual` states. `CodesAreEqual` (`codesAreEqual`, compare.go:23-25) is a helper too;
  `FailureCodeMatchesOnlyItself` states what it means for the failure code.
- `correctness.dfy` holds sentinel substitution, the `Stats` record, the per-request
  transition `Serve` and its fold `Replay`. `Settle` (sentinel substitution,
  correctness.go:27-34) and `IsMismatch` (the mismatch test, correctness.go:40) are helpers
  whose behaviour the contracts of `Serve` and `Record` state.
- `tally.dfy` holds the sum of a map's counts, which is used to state the counting invariant.
- `wrappers.dfy` holds `Option`.

The weak array rule is stated exactly. Arrays must have the same length, and every control
element must have *some* weakly-equal experiment element. Matched elements are not consumed.
The relation is therefore reflexive and transitive, and it accepts any permutation. It is not
symmetric and not a bijection: `[1,1]` matches `[1,2]`, but `[1,2]` does not match `[1,1]`.
Strict mode is proved to be plain structural equality.

Two behaviours of the code are easy to misread:

- `CorrectnessTest.ServeHTTP` decides a diff from the raw dump strings and status codes
  (correctness.go:40). It never calls the comparator of compare.go. So two responses that differ
  only in JSON array order are logged as a diff in either mode. The comparator is modelled on
  its own, as the code has it.
- Weak array matching does not remember which experiment elements were already used
  (compare.go:102-131). So one experiment element can match several control elements, and the
  matching is not one-to-one.

## Model

| member | source | states |
|---|---|---|
| Compare.CleanupHeaders | science/compare.go:11-21 | No listed header name remains and every other header keeps its values. The content length becomes 0 exactly when "Content-Length" is listed, and the transfer encoding becomes empty exactly when "Transfer-Encoding" is listed. Otherwise both are untouched, as are status and body. |
| Compare.CleanupRemovesListed | science/compare.go:12-14 | The cleaned header map is the received map with the listed names removed. |
| Compare.CleanupIdempotent | science/compare.go:12-20 | Cleaning twice with the same list gives the same response as cleaning once. |
| Compare.HeadersAreEqual | science/compare.go:27-29 | Headers are equal exactly when they have the same names and each name has the same value list. |
| Compare.HeaderValueOrderMatters | science/compare.go:27-29 | The order of one header's values is significant: `["1","2"]` differs from `["2","1"]`. |
| Compare.IsJsonEqual | science/compare.go:46-60 | The result is false when either body is not a JSON object. When both parse, the result is the object equality of the given mode. In strict mode it holds exactly when the two decoded objects are identical. |
| Compare.BodiesAreEqual | science/compare.go:31-41 | Identical bytes are equal in every mode. Different bytes are unequal if either side fails to parse. Otherwise the result is the JSON object equality of the given mode. |
| Compare.ArrayOrderBodies | science/compare.go:31-59 | `{"a":[1,2]}` and `{"a":[2,1]}` as different byte strings are equal in weak mode and unequal in strict mode. |
| JsonEquality.SliceAreEqual | science/compare.go:97-133 | The loop with its early exits and `continue` on kind mismatch returns exactly this: same length, and every control element has some weakly-equal experiment element. |
| JsonEquality.MsiAreEqual | science/compare.go:62-95 | The loop over control keys in any order, with its early exits, returns exactly this: same key count, and every control key is present on the experiment side with a weakly-equal value. |
| JsonEquality.MapEqSameKeys | science/compare.go:62-95 | Different key counts mean unequal. Object equality holds exactly when the key sets match and the values match pairwise. Matched values have compatible kinds: array with array, object with object, identical scalars. |
| JsonEquality.StrictIsEquality | science/compare.go:56-59 | Strict-mode equality is exactly structural equality of the decoded values, that is `reflect.DeepEqual`. |
| JsonEquality.StrictMapIsEquality | science/compare.go:59 | Strict object equality is equality of the two decoded maps. |
| JsonEquality.Reflexive | science/compare.go:43-45 | Every JSON value equals itself in both modes. |
| JsonEquality.Transitive | science/compare.go:62-133 | Equality is transitive in both modes, weak array matching included. |
| JsonEquality.StrictImpliesWeak | science/compare.go:56-59 | Whatever strict mode accepts, weak mode accepts. |
| JsonEquality.ReorderedIsWeaklyEqual | science/compare.go:43-45 | A value whose arrays are reordered at any depth, with objects keeping their keys, is weakly equal to the original. |
| JsonEquality.NestedOrderExample | science/compare.go:97-133 | `{"a":[[1,2]]}` and `{"a":[[2,1]]}`, with an array reordered inside another array, are weakly equal and strictly unequal. |
| JsonEquality.PermutationIsWeaklyEqual | science/compare.go:43-45 | An array is weakly equal to every permutation of itself, as the doc comment promises. |
| JsonEquality.WeakMatchingDoesNotConsume | science/compare.go:101-131 | `[1,1]` weakly matches `[1,2]`, although their multisets differ. `[1,2]` does not match `[1,1]`, so weak equality is neither a bijection nor symmetric. |
| JsonEquality.ArrayOrderExamples | science/compare.go:56-133 | `{"a":[1,2]}` and `{"a":[2,1]}` are unequal in strict mode and equal in weak mode. Control `{"a":[1,2]}` is unequal to experiment `{"a":[1,2,3]}` in weak mode because the lengths differ. |
| Correctness.DiffRecord | science/correctness.go:50-52 | The record is an opening line, the request dump, a separator, the control dump, a separator, the experiment dump and a closing line. Each piece sits at its stated offset, and the length is the sum of the pieces. |
| Correctness.Bump | science/correctness.go:41-47 | Cell `[experiment][control]` goes up by exactly one, so a first occurrence ends at 1. Its row and cell are created if missing. Every other cell and row is unchanged. |
| Correctness.Record | science/correctness.go:36-53 | Requests go up by one. On a mismatch, diffs go up by one, only cell `[exp code][ctrl code]` goes up by one, and the log gains exactly this request's record. Without a mismatch, diffs, matrix and log are unchanged. |
| Correctness.Serve | science/correctness.go:27-53 | After sentinel substitution, a diff is counted exactly when the dumps or the codes differ. If both forwards failed, the request is always a diff, filed under `[-1][-1]` with both failure dumps. If one forward failed and the other side has a code other than -1, the request is filed under that side's code and -1. |
| Correctness.SentinelsNeverMatch | science/correctness.go:27-34 | The two failure dumps differ, so a request on which both forwards failed is always a mismatch, with -1 as both codes. |
| Correctness.FailureCodeMatchesOnlyItself | science/compare.go:23-25 | The -1 failure code matches only -1, from either side, and never a three-digit HTTP status. |
| Correctness.ServeKeepsConsistent | science/correctness.go:38-52 | One request keeps these invariants: diffs ≤ requests, diffs = sum of all matrix cells, and log length = diffs. |
| Correctness.ReplayCounts | science/correctness.go:38-52 | A run of requests adds one request per exchange. It appends exactly one record per mismatched exchange, in arrival order, and adds one diff per record. |
| Correctness.ReplayKeepsConsistent | science/correctness.go:38-52 | Any run of requests keeps the counting invariant. |
| Correctness.BumpAddsOne | science/correctness.go:41-49 | Bumping a cell adds exactly one to the sum of the matrix, whether or not its row or cell existed before. |
| Correctness.FromZero | science/correctness.go:38-52 | From empty statistics, after any run: requests equal the run length, diffs ≤ requests, diffs equal the matrix sum, and the log holds exactly the expected records, one per diff. |
| Correctness.ForwardCleanupNormalizes | science/correctness.go:25 | Cleaning with the handler's list (`Date`, `Content-Length`, `Transfer-Encoding`) removes those three headers, zeroes the content length, empties the transfer encoding and keeps every other header. |
| Correctness.FramingDifferencesVanish | science/correctness.go:25 | Take two responses that differ only in date and framing headers and in their framing fields. They become identical after cleanup with the handler's list. |
| Correctness.DateHeaderExample | science/correctness.go:25 | `{X-A: 1}` and `{X-A: 1, Date: now}` are unequal as received and equal after cleanup. |
| Correctness.SameStatusDifferentDumps | science/correctness.go:40-49 | Two 200 responses with different dumps count one diff, filed under cell `[200][200]`. |

## Left out

- `main.go`: TCP dialing, proxy writes, response reading and dumping, environment checks and
  the listener are I/O. Its handler is a separate, simpler variant that is not modelled. It
  compares the dumps only, with no status codes (main.go:93). It returns without recording
  anything when either forward fails (main.go:84-91). It strips the three headers with
  `Header.Del` and never resets the framing fields (main.go:58-63).
- JSON decoding (`encoding/json.Unmarshal`, compare.go:49-54) is a parameter `Parser` that
  returns a decoded object or nothing. Go decodes the body `null` into a nil map, which
  `reflect.DeepEqual` separates from `{}`. The model does not distinguish nil from empty maps.
- Compare.HeadersAreEqual: `reflect.DeepEqual` on `http.Header` separates a nil value list
  from an empty one, and a nil header from an empty one. Dafny map and sequence equality does
  not, so the model treats those pairs as equal.
- JSON numbers are `float64` in Go. Here they are exact values compared only for equality;
  no rounding or float arithmetic is modelled.
- `forwardRequest` and `httputil.DumpRequest` (correctness.go:18-31) are not part of this
  model. Their results are inputs: a request dump string, and for each side a dump and code or
  an error. When the request dump fails, Go logs the error and continues with an empty dump.
  The model takes whatever dump string it is given.
- The mutex and the global `Res` (correctness.go:36-37) are concurrency and global state. The
  update is one atomic transition on an explicitly passed `Stats` value.
- `config.WeakCompare` is the explicit `Mode` parameter.
- Writing the diff log through an `io.Writer` is modelled as appending one string per record;
  write errors are ignored, as `ServeHTTP` ignores them.
- Correctness.Record: `Reqs`, `Diffs` and the matrix cells are Go `int`s. The model uses
  unbounded naturals and does not model 64-bit wrap-around, which would need 2^63 requests.
- Go map iteration order is random. `JsonEquality.MsiAreEqual` picks the next key
  nondeterministically and is proved correct for every order.
