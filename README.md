# Request helpers of the admin backend, modelled in Dafny

This project models the request-inspection helpers of the backend's
`request_util` module. They are:

- `get_request_user`: who made the request.
- `get_request_ip`: from which address.
- `get_request_data`: with which parameters.
- `get_request_path` and `get_request_canonical_path`: under which URL
  template the request is logged.

Framework objects become plain inputs:

- Each attribute a middleware may have cached on the request (`request_ip`,
  `request_data`, `request_path`, `request_canonical_path`) is an `Option`.
  Python truthiness decides whether the cached value is used.
- `request.META` is a `map<string, string>`. `META.get(key, '')` is `MetaGet`.
- The query string and the form body are lists of (key, value) pairs.
  `QueryDict.dict()` keeps the last value of each key (`DictOf`).
- The request body is the JSON value `json.loads` would return, or `None` when
  the raw body is empty.
- The router's match is a list of positional values plus an ordered list of
  (name, value) pairs.
- The configured authenticators are the sequence of their outcomes: raises,
  returns `None`, or returns `(user, token)`.
- The request's `user` attribute is the one field of a small `Request` class.
  `GetRequestUser` is the only operation that changes state.

Files:

- `wrappers.dfy`: `Option` and the truthiness of an optional string.
- `text.dfy`: the parts of Python's `str` used by the module. These are
  `strip()` (with Python's `isspace` character set), `split(',')`, and
  `replace(old, new)`, which replaces every non-overlapping occurrence while
  scanning from the left. It also holds `Join` (Python's `sep.join(...)`) and
  `SplitOn` (a split on a separator string). The module itself calls neither;
  they are reference definitions that the lemmas about `Split` and
  `ReplaceAll` are stated against.
- `json.dfy`: a decoded JSON value and its truthiness.
- `request_util.dfy`: the five helpers, the specification functions they are
  proved against, and the lemmas about them.

Two behaviours of the code are worth stating plainly:

- `get_request_path` and `get_request_canonical_path` replace every
  occurrence of `'/' + value`, not just the first. This is Python's
  `str.replace` at lines 106, 124 and 126.
- `get_request_user` falls back to the user the request had before the call.
  The local `user` is reassigned only on the success path (lines 34-37), and
  that path returns at once. The fallback at line 40 therefore sees the
  original user.

## Model

| member | source | states |
|---|---|---|
| `Wrappers.TruthyText` | dvadmin-backend/apps/vadmin/utils/request_util.py:49-51 | the `if ip:` test, and the same test on `request_path` and `request_canonical_path` at lines 90 and 119: a cached string attribute counts only when present and non-empty |
| `Json.Truthy` | dvadmin-backend/apps/vadmin/utils/request_util.py:68-70 | the `if request_data:` test: `None`, `False`, zero and empty strings, lists and dicts are falsy, all else truthy |
| `Text.IsSpace` | dvadmin-backend/apps/vadmin/utils/request_util.py:56 | `str.isspace()` on one character: the tab-to-carriage-return range, the file/group/record/unit separators and space, and the Unicode spaces U+0085, U+00A0, U+1680, U+2000-U+200A, U+2028, U+2029, U+202F, U+205F and U+3000 |
| `Text.SkipSpaceForward` | dvadmin-backend/apps/vadmin/utils/request_util.py:56 | the first non-whitespace index at or after `i`; everything skipped is whitespace |
| `Text.SkipSpaceBackward` | dvadmin-backend/apps/vadmin/utils/request_util.py:56 | the end of the last non-whitespace character above `lo`; everything skipped is whitespace |
| `Text.Strip` | dvadmin-backend/apps/vadmin/utils/request_util.py:56 | `strip()` gives a slice of the input that neither starts nor ends with whitespace, with only whitespace cut off on either side |
| `Text.SkipSpaceForwardStopsAt` | dvadmin-backend/apps/vadmin/utils/request_util.py:56 | the forward scan stops exactly at the first character that is not whitespace |
| `Text.SkipSpaceBackwardStopsAt` | dvadmin-backend/apps/vadmin/utils/request_util.py:56 | the backward scan stops exactly behind the last character that is not whitespace |
| `Text.StripPadded` | dvadmin-backend/apps/vadmin/utils/request_util.py:56 | stripping whitespace + core + whitespace gives back exactly the core, so `strip()` removes the padding and nothing else |
| `Text.StripIdempotent` | dvadmin-backend/apps/vadmin/utils/request_util.py:56 | stripping twice is stripping once |
| `Text.Split` | dvadmin-backend/apps/vadmin/utils/request_util.py:56 | `split(sep)` gives at least one piece, and no piece contains the separator, so `[-1]` always exists |
| `Text.JoinSplit` | dvadmin-backend/apps/vadmin/utils/request_util.py:56 | joining the pieces of a split with the separator gives back the text |
| `Text.SplitJoin` | dvadmin-backend/apps/vadmin/utils/request_util.py:56 | splitting a join of separator-free pieces gives back the pieces |
| `Text.SplitNoSeparator` | dvadmin-backend/apps/vadmin/utils/request_util.py:56 | text without the separator splits into itself alone |
| `Text.SplitAtSeparator` | dvadmin-backend/apps/vadmin/utils/request_util.py:56 | splitting `a + sep + b` is splitting `a`, then splitting `b` |
| `Text.LastPiece` | dvadmin-backend/apps/vadmin/utils/request_util.py:56 | the last piece of (text ending in the separator) + (separator-free tail) is that tail |
| `Text.JoinExtendFirst` | dvadmin-backend/apps/vadmin/utils/request_util.py:56 | extending the first piece extends the joined text at its front |
| `Text.ReplaceAll` | dvadmin-backend/apps/vadmin/utils/request_util.py:106 | `str.replace`, also at lines 124 and 126: leftmost non-overlapping replacement, pinned down by `ReplaceAllAtMatch`, `ReplaceAllSkip`, `ReplaceAllKeepsPrefix` and `ReplaceAllIsSplitOnJoin` |
| `Text.ReplaceAllAtMatch` | dvadmin-backend/apps/vadmin/utils/request_util.py:106 | an occurrence at the front is replaced, and the scan resumes after it |
| `Text.ReplaceAllSkip` | dvadmin-backend/apps/vadmin/utils/request_util.py:106 | a character at which the pattern does not start is kept, and the scan moves on by one |
| `Text.ReplaceAllKeepsPrefix` | dvadmin-backend/apps/vadmin/utils/request_util.py:106 | a prefix at none of whose positions the pattern starts is kept as it is |
| `Text.ReplaceAllNoMatch` | dvadmin-backend/apps/vadmin/utils/request_util.py:106 | `replace` leaves a text in which the pattern does not occur unchanged |
| `Text.ReplaceAllSame` | dvadmin-backend/apps/vadmin/utils/request_util.py:106 | replacing a pattern by itself changes nothing |
| `Text.ReplaceCharIsSplitJoin` | dvadmin-backend/apps/vadmin/utils/request_util.py:106 | for a one-character pattern, `s.replace(c, rep) == rep.join(s.split(c))`, so every occurrence is replaced |
| `Text.SplitOn` | dvadmin-backend/apps/vadmin/utils/request_util.py:106 | a split on a separator string, scanning from the left, gives at least one piece |
| `Text.SplitOnFirstIsPrefix` | dvadmin-backend/apps/vadmin/utils/request_util.py:106 | the first piece of a split is a prefix of the text |
| `Text.SplitOnPiecesFree` | dvadmin-backend/apps/vadmin/utils/request_util.py:106 | no piece of the split contains the separator: the scan cuts at every non-overlapping occurrence, leftmost first |
| `Text.ReplaceAllIsSplitOnJoin` | dvadmin-backend/apps/vadmin/utils/request_util.py:106 | `s.replace(pat, rep) == rep.join(s.split(pat))` for every non-empty pattern, so every non-overlapping occurrence of `'/' + value`, leftmost first, is replaced and nothing else changes; which occurrences are taken follows from `ReplaceAllAtMatch` and `ReplaceAllKeepsPrefix` |
| `Text.JoinSplitOn` | dvadmin-backend/apps/vadmin/utils/request_util.py:106 | joining the pieces of a split with the separator gives back the text |
| `Text.SplitOnOneChar` | dvadmin-backend/apps/vadmin/utils/request_util.py:56 | on a one-character separator, the string split is the character split used for `X-Forwarded-For` |
| `RequestUtil.FirstSuccess` | dvadmin-backend/apps/vadmin/utils/request_util.py:29-37 | the index of the first authenticator returning a pair: every earlier one raised or returned `None` |
| `RequestUtil.ResolveUser` | dvadmin-backend/apps/vadmin/utils/request_util.py:25-40 | an authenticated user is kept whatever the authenticators would do; the request is written only when `authenticate` is set, and only with the returned user; with no success the result is the old user or the anonymous user; the result is never a user from nowhere |
| `RequestUtil.FirstSuccessSkipsFailures` | dvadmin-backend/apps/vadmin/utils/request_util.py:29-39 | failing authenticators in front shift the first success by their number |
| `RequestUtil.ResolveUserSkipsFailures` | dvadmin-backend/apps/vadmin/utils/request_util.py:29-39 | authenticators that raise or return `None` are skipped as if they were not configured |
| `RequestUtil.FirstSuccessWins` | dvadmin-backend/apps/vadmin/utils/request_util.py:33-37 | the first pair decides the user, and it is stored on the request exactly when `authenticate` is set |
| `RequestUtil.GetRequestUser` | dvadmin-backend/apps/vadmin/utils/request_util.py:17-40 | the returned user and the request's `user` afterwards are what `ResolveUser` says for the user beforehand; the method never fails |
| `RequestUtil.MetaGet` | dvadmin-backend/apps/vadmin/utils/request_util.py:52-54 | `request.META.get(key, '')`: the header's value when present, else the empty string |
| `RequestUtil.GetRequestIp` | dvadmin-backend/apps/vadmin/utils/request_util.py:43-59 | a truthy cached `request_ip` is returned as is; else a non-empty `REMOTE_ADDR`; with both headers empty, `"unknown"`; an address from `X-Forwarded-For` has no comma and no outer whitespace |
| `RequestUtil.ForwardedForLastEntry` | dvadmin-backend/apps/vadmin/utils/request_util.py:52-58 | with `REMOTE_ADDR` empty, the address is the whitespace-trimmed entry after the last comma of `X-Forwarded-For` |
| `RequestUtil.ForwardedForExample` | dvadmin-backend/apps/vadmin/utils/request_util.py:54-56 | `"1.1.1.1, 2.2.2.2"` gives `"2.2.2.2"` |
| `RequestUtil.ForwardedForTrailingCommaExample` | dvadmin-backend/apps/vadmin/utils/request_util.py:54-56 | `"1.1.1.1, "` gives the empty string |
| `RequestUtil.DictOf` | dvadmin-backend/apps/vadmin/utils/request_util.py:71 | `QueryDict.dict()`: one entry per key holding its last value, as `DictOfHasEveryKey`, `DictOfOnlyItsKeys` and `DictOfLastValue` state |
| `RequestUtil.DictOfHasEveryKey` | dvadmin-backend/apps/vadmin/utils/request_util.py:71 | every key of the parameters is a key of `QueryDict.dict()` |
| `RequestUtil.DictOfOnlyItsKeys` | dvadmin-backend/apps/vadmin/utils/request_util.py:71 | `QueryDict.dict()` has no other keys |
| `RequestUtil.DictOfLastValue` | dvadmin-backend/apps/vadmin/utils/request_util.py:71 | a key holds the value of its last pair |
| `RequestUtil.MergeIsDictOfConcat` | dvadmin-backend/apps/vadmin/utils/request_util.py:71 | `{**dict(query), **dict(form)}` is the dict of the query pairs followed by the form pairs |
| `RequestUtil.RequestDataMerge` | dvadmin-backend/apps/vadmin/utils/request_util.py:71 | the result holds exactly the query and form keys; on a shared key the form value wins; a key only in the query keeps its last query value |
| `RequestUtil.GetRequestData` | dvadmin-backend/apps/vadmin/utils/request_util.py:62-78 | a truthy cached value is returned; otherwise the result is always a mapping: the merge when there are parameters, else the decoded body if it is a mapping, `{"data": body}` if it is not, `{}` for an empty body |
| `RequestUtil.BodyListExample` | dvadmin-backend/apps/vadmin/utils/request_util.py:72-77 | body `[1,2,3]` without parameters gives `{"data": [1,2,3]}` |
| `RequestUtil.QueryOnlyExample` | dvadmin-backend/apps/vadmin/utils/request_util.py:71 | query `a=1` gives `{"a": "1"}` |
| `RequestUtil.Contribution` | dvadmin-backend/apps/vadmin/utils/request_util.py:94-101 | what one argument adds: nothing when its length is 0, a string itself, a list or tuple its elements, a dict its values in insertion order |
| `RequestUtil.FlattenArgs` | dvadmin-backend/apps/vadmin/utils/request_util.py:92-101 | the values of all positional arguments in order; `CollectValues` computes it and `FlattenArgsEmpty` says when it is empty |
| `RequestUtil.FlattenArgsSnoc` | dvadmin-backend/apps/vadmin/utils/request_util.py:93-101 | one more argument adds its own values at the end |
| `RequestUtil.FlattenArgsAppend` | dvadmin-backend/apps/vadmin/utils/request_util.py:92-101 | collecting values distributes over the argument list, keeping order |
| `RequestUtil.FlattenArgsEmpty` | dvadmin-backend/apps/vadmin/utils/request_util.py:93-103 | no value is collected exactly when every positional argument is empty |
| `RequestUtil.CollectValues` | dvadmin-backend/apps/vadmin/utils/request_util.py:92-101 | the loop collects the flattened values: a string itself, a list or tuple its elements, a dict its values, empty arguments nothing |
| `RequestUtil.Mask` | dvadmin-backend/apps/vadmin/utils/request_util.py:106 | one `path.replace('/' + value, '/{name}')` (also at lines 124 and 126), with the properties of `ReplaceAll` |
| `RequestUtil.MaskAll` | dvadmin-backend/apps/vadmin/utils/request_util.py:104-106 | the replacements applied one after another, each to the previous result (also the two loops at lines 123-126), as `MaskAllAppend` states |
| `RequestUtil.Positional` | dvadmin-backend/apps/vadmin/utils/request_util.py:105-106 | every positional value is masked under the name `id`, in order |
| `RequestUtil.MaskAllAppend` | dvadmin-backend/apps/vadmin/utils/request_util.py:121-126 | masking with `a` then with `b` is masking with `a + b`, so later replacements see the output of earlier ones |
| `RequestUtil.MaskAllNoMatch` | dvadmin-backend/apps/vadmin/utils/request_util.py:105-106 | values whose `'/' + value` does not occur leave the path unchanged |
| `RequestUtil.MaskEmptyValue` | dvadmin-backend/apps/vadmin/utils/request_util.py:106 | an empty value turns every `/` into `/{id}` |
| `RequestUtil.MaskOneOccurrence` | dvadmin-backend/apps/vadmin/utils/request_util.py:124-126 | a value whose `'/' + value` occurs once, after a part where it does not start, is masked in place and the rest of the path is kept |
| `RequestUtil.PathExample` | dvadmin-backend/apps/vadmin/utils/request_util.py:92-107 | `/api/42/items` with the positional argument `"42"` becomes `/api/{id}/items` |
| `RequestUtil.CanonicalPathExample` | dvadmin-backend/apps/vadmin/utils/request_util.py:121-129 | `/api/42/` with the named match value `pk=42` becomes `/api/{pk}/` |
| `RequestUtil.GetRequestPath` | dvadmin-backend/apps/vadmin/utils/request_util.py:81-107 | a truthy cached `request_path` is returned; otherwise the path masked with every collected value in turn; with all positional arguments empty, the path unchanged; keyword arguments are never read |
| `RequestUtil.GetRequestCanonicalPath` | dvadmin-backend/apps/vadmin/utils/request_util.py:110-129 | a truthy cached `request_canonical_path` is returned; otherwise every positional match value masked as `{id}`, then every named one as `{name}` in order; with an empty match, the path unchanged |

## Left out

- `get_browser` and `get_os` (lines 132-155): they hand the `User-Agent` header to the external user-agent parser, whose behaviour is not part of this model.
- `get_login_location` (lines 158-174): an outbound HTTP call with a two-second timeout and GBK decoding. This is network I/O and timing, not logic.
- `json.loads` (line 75): the body is taken as already decoded. Malformed JSON, and the decode error it raises, are not modelled. JSON numbers are integers here; floating point is left out.
- Django and DRF objects: `request.META`, `QueryDict`, `ResolverMatch`, the authentication settings and what each authenticator class does. They are replaced by the plain inputs described above.
- A request whose `resolver_match` is `None`: `get_request_canonical_path` then raises `AttributeError`. The model takes the match as a given input.
- Set-typed positional arguments of `get_request_path`: Python's set iteration order is unspecified, so only strings, lists or tuples, and dicts are modelled.
- Non-string path values. `'/' + value` at line 106 would raise on them, and the f-strings at lines 124 and 126 would format them. All values are strings here.
- Positional arguments of other types that have a length (such as bytes): the source skips them silently, and the model has no such case.
- Positional arguments of `get_request_path` that have no length, such as an int: `len(arg)` at line 94 raises `TypeError` before any masking. `PathArg` has only sized cases, so this error path is not modelled.
- A failure of the assignment `request.user = user` (line 36) inside the `try`: that would leave the local `user` reassigned before the exception is swallowed. The model treats an authenticator's outcome as atomic.
- The insertion order of the merged parameter dict: Dafny maps are unordered, so only the keys and values are modelled.
- Cached attributes are typed: `request_ip`, `request_path` and `request_canonical_path` are strings, and `request_data` is a JSON value. Python would return any truthy object unchanged.
