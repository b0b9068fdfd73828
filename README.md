# wp-flash-message in Dafny

This project models `FlashMessage`, the one class of the wp-flash-message
WordPress library. It is a session-backed queue of typed notices. `add` (and
its wrappers `info`, `success`, `warning`, `error`, `sticky`) appends a
`{sticky, message}` record to the bucket of one of four types (`e`, `w`, `s`,
`i`) in the session namespace `flash_messages`. Then it ends the request
through `do_redirect`. `display` renders the chosen buckets through the
`format_message` template in FIFO order and removes each bucket it renders.
`clear` unsets buckets or the whole namespace. `has_errors` and
`has_messages` read the namespace without changing it. The `set_*` methods
change the presentation settings.

Layout:

- `text.dfy` (module `Text`): PHP's `trim` with its default character list,
  and `strtolower` on one character.
- `types.dfy` (module `FlashTypes`):
  - the values: messages, the namespace as `map<char, seq<Msg>>`, the
    presentation settings and the call arguments;
  - the two type normalisations: the one in `add` and the one in `display`.
- `queue.dfy` (module `Queue`), stated on values:
  - what `add` does to the namespace and what `clear` removes;
  - what the two queries answer;
  - what `do_redirect` decides;
  - how `set_css_class_map` merges.
- `render.dfy` (module `Rendering`):
  - `format_message` as a template fill, with its inverse;
  - one bucket's rendering;
  - `Render`, the specification of what a `display` visiting a list of keys
    outputs and leaves behind, with its lemmas.
- `flash_message.dfy` (module `Flash`): the class `FlashMessage`, with the
  namespace and every setting as fields.
  - Its methods update those fields in place with the source's loops.
  - Each method is proved against the value-level functions above.
  - The class invariant `Valid()` says two things:
    - the namespace holds only the four type buckets;
    - the CSS class map covers the four types.

  Together these make the class lookup in `format_message` total
  (`ClassLookupTotal`).

Every successful `add` ends in a redirect or in `wp_die`. It never returns
normally after queueing. `Add` returns this as the `Halted` outcome.

## Model

| member | source | states |
|---|---|---|
| Text.Trim | src/FlashMessage.php:196 | `trim` returns the infix of the input that starts where the leading run of whitespace/NUL/vertical tab ends, with only such characters before and after it; it neither starts nor ends with one, and it is empty exactly when the whole input is such characters |
| Text.Lower | src/FlashMessage.php:197 | `strtolower` on one character: upper-case ASCII letters map to the same lower-case letter, everything else is unchanged, and the result is never upper-case |
| FlashTypes.DefaultStyleValid | src/FlashMessage.php:93-98 | the default class map has a class for exactly the four types, so the default settings satisfy the invariant |
| FlashTypes.AddKey | src/FlashMessage.php:196-201 | the key `add` files under is always one of e/w/s/i; a type whose trimmed length is over one gives its lower-cased first character when that is a type key; a single-character type key is kept as is; any other type gives the default `i` |
| FlashTypes.Initials | src/FlashMessage.php:351-355 | the keys for an array of type names, at most one per name; with no empty name, exactly the lower-cased first character of each name, in order |
| FlashTypes.VisitOrder | src/FlashMessage.php:343-360 | `display` visits e, w, s, i for null, an empty array or a falsy name; the lower-cased initials, in order, for a non-empty array; exactly the one lower-cased initial for a truthy name |
| FlashTypes.KeyOf | src/FlashMessage.php:472 | a raw name addresses a bucket exactly when it is one character long, and then that character's bucket |
| FlashTypes.KeysNamed | src/FlashMessage.php:441-443 | the keys unset for an array of names are exactly the characters `c` with `[c]` among the names |
| Queue.Enqueue | src/FlashMessage.php:204-213 | after `add`, the namespace has the old keys plus the message's key; that bucket is the old bucket (or empty) with the message appended; every other bucket is unchanged |
| Queue.CreateThenAppend | src/FlashMessage.php:204-213 | creating the bucket when absent and then appending gives exactly `Enqueue` |
| Queue.ClearsAll | src/FlashMessage.php:432-434 | the arguments that make `clear` unset the whole namespace (null, an empty array, a falsy name) all make `display` visit every type |
| Queue.Named | src/FlashMessage.php:437-443 | a narrower `clear` addresses exactly the one-character names it is given |
| Queue.Cleared | src/FlashMessage.php:431-446 | `clear` with null, an empty array or a falsy name removes the namespace; otherwise its keys lose exactly the named keys and every kept bucket is unchanged; an absent namespace stays absent |
| Queue.ClearOneKey | src/FlashMessage.php:373 | `clear` of one type key other than "0" removes just that bucket |
| Queue.ClearedIsRemoval | src/FlashMessage.php:437-443 | unsetting the array's names one by one is the narrower `clear` |
| Queue.HasErrors | src/FlashMessage.php:456-458 | true exactly when the namespace exists and its `e` bucket is non-empty |
| Queue.FirstNonEmpty | src/FlashMessage.php:476-483 | None exactly when every bucket along the order is empty or absent; otherwise the first non-empty one along the order |
| Queue.HasMessages | src/FlashMessage.php:470-487 | for a name: that bucket, looked up without normalisation, when non-empty, else false; for null: `FirstNonEmpty` along e, w, s, i, so the first non-empty bucket in that order, or false when all are empty; never an empty bucket |
| Queue.HasErrorsIsHasMessagesE | src/FlashMessage.php:456-474 | `has_errors()` agrees with `has_messages('e')` |
| Queue.EnqueueThenQueries | src/FlashMessage.php:456-487 | after queueing under a type key, `has_messages()` finds something, `has_messages` of that key returns the bucket with the new message last, and after an error `has_errors()` holds |
| Queue.ClearAllLeavesNothing | src/FlashMessage.php:432-436 | after a clear-all neither query finds anything |
| Queue.FreshNamespaceIsEmpty | src/FlashMessage.php:132-137 | in a freshly created namespace neither query finds anything |
| Queue.Finalize | src/FlashMessage.php:229-241 | `do_redirect` redirects exactly when the pending URL is truthy (not null, "" or "0"), and then to that URL; otherwise it dies |
| Queue.Merged | src/FlashMessage.php:604-606 | assigning the pairs gives the old keys plus the pairs' keys |
| Queue.MergedLookup | src/FlashMessage.php:604-606 | a key's class is the one the last pair for that key gives; a key no pair names keeps its class |
| Queue.ClassMapAfter | src/FlashMessage.php:594-608 | a single type with a null class leaves the map unchanged; a single type with a class adds or overwrites only that entry; no call removes an entry |
| Queue.ClassMapAfterKeepsValid | src/FlashMessage.php:594-608 | `set_css_class_map` keeps a class for each of the four types |
| Queue.EnqueueKeepsWellKeyed | src/FlashMessage.php:199-213 | `add` only ever creates one of the four type buckets |
| Queue.ClearedKeepsWellKeyed | src/FlashMessage.php:431-446 | `clear` only removes buckets |
| Rendering.Render | src/FlashMessage.php:363-374 | the namespace `display` leaves holds only buckets it had, each unchanged |
| Rendering.FormatMessage | src/FlashMessage.php:395-418 | a formatted message is a head fixed by the settings, the type and the stickiness, then the message text verbatim, then the after-decoration and the wrapper's end; `FormatMessageRoundTrip`, `ExtractMessageInverse` and `CloseButtonOnlyWhenNotSticky` give its further properties |
| Rendering.FormatMessageRoundTrip | src/FlashMessage.php:411-417 | the message text can be read back from the formatted message |
| Rendering.ExtractMessageInverse | src/FlashMessage.php:411-417 | any text read back formats to the very same output |
| Rendering.CloseButtonOnlyWhenNotSticky | src/FlashMessage.php:401-408 | a message that is not sticky has the close button right after the wrapper's class slot; a sticky one adds the sticky class and its output does not depend on the close button |
| Rendering.DefaultSuccessExample | src/FlashMessage.php:395-418 | with the default settings, a success message renders as `<div class='alert dismissable alert-success'>Saved!</div>` and a newline |
| Rendering.RenderBucket | src/FlashMessage.php:370-372 | an empty bucket renders as nothing and a one-message bucket as that message formatted; `RenderBucketAppend` and `RenderBucketFifo` give the FIFO concatenation |
| Rendering.RenderBucketAppend | src/FlashMessage.php:370-372 | rendering a bucket is rendering its parts one after the other |
| Rendering.RenderBucketFifo | src/FlashMessage.php:370-372 | the oldest message of a bucket is rendered first |
| Rendering.RenderLeavesUnvisited | src/FlashMessage.php:363-374 | `display` removes exactly the visited non-empty buckets and keeps all others unchanged |
| Rendering.RenderKeepsOthers | src/FlashMessage.php:363-374 | a bucket that is not visited is kept as it was |
| Rendering.RenderNothing | src/FlashMessage.php:364-369 | when every visited bucket is absent or empty, `display` outputs nothing and changes nothing |
| Rendering.RenderTwice | src/FlashMessage.php:363-374 | a second `display` of the same types outputs nothing and leaves the namespace as the first left it |
| Rendering.RenderIsConcat | src/FlashMessage.php:363-374 | with no key visited twice, the output is each visited bucket's rendering, in visit order |
| Rendering.EnqueueThenRender | src/FlashMessage.php:363-374 | after queueing a message under a key, displaying that key shows the older messages and then the new one, and removes the bucket |
| Rendering.DisplayAllConsumesAll | src/FlashMessage.php:343-374 | after `display()` with no argument, `has_messages()` and `has_errors()` find nothing |
| Flash.FlashMessage.ClassLookupTotal | src/FlashMessage.php:398 | under the invariant, every bucket of the namespace has an entry in the class map, so the lookup in `format_message` returns that entry and never misses |
| Flash.FlashMessage.constructor | src/FlashMessage.php:124-139 | an existing namespace is kept and an absent one is created empty; all settings start at their defaults and no URL is pending |
| Flash.FlashMessage.Add | src/FlashMessage.php:186-219 | an empty message is rejected and nothing changes; otherwise the namespace becomes `Enqueue` under the normalised key, a given URL replaces the pending one, and the outcome is `do_redirect` of the pending URL; settings are unchanged and the invariant is kept |
| Flash.FlashMessage.Info | src/FlashMessage.php:165-171 | `add` under `i` |
| Flash.FlashMessage.Success | src/FlashMessage.php:255-261 | `add` under `s` |
| Flash.FlashMessage.Warning | src/FlashMessage.php:275-281 | `add` under `w` |
| Flash.FlashMessage.Error | src/FlashMessage.php:295-301 | `add` under `e` |
| Flash.FlashMessage.Sticky | src/FlashMessage.php:315-321 | `add` of a sticky message under the normalised type |
| Flash.FlashMessage.Display | src/FlashMessage.php:336-382 | false (None) and no change when the namespace is absent; otherwise the sanitised `Render` output over `VisitOrder` of the argument, and the namespace `Render` leaves; settings and URL unchanged |
| Flash.FlashMessage.ConsumeType | src/FlashMessage.php:364-373 | one visit of the display loop: a non-empty bucket yields its rendering and is removed; an absent or empty bucket yields nothing and the namespace is unchanged |
| Flash.FlashMessage.SelectTypes | src/FlashMessage.php:343-360 | the selection loop computes `VisitOrder` |
| Flash.FlashMessage.FormatBucket | src/FlashMessage.php:370-372 | the inner loop produces the bucket's rendering |
| Flash.FlashMessage.Clear | src/FlashMessage.php:431-446 | the namespace becomes `Cleared` of the old one; settings and URL are unchanged; the invariant is kept |
| Flash.FlashMessage.SetMsgWrapper | src/FlashMessage.php:502-505 | only the wrapper changes |
| Flash.FlashMessage.SetMsgBefore | src/FlashMessage.php:517-520 | only the before-decoration changes |
| Flash.FlashMessage.SetMsgAfter | src/FlashMessage.php:532-535 | only the after-decoration changes |
| Flash.FlashMessage.SetCloseBtn | src/FlashMessage.php:547-550 | only the close button changes |
| Flash.FlashMessage.SetStickyCssClass | src/FlashMessage.php:562-565 | only the sticky class changes |
| Flash.FlashMessage.SetMsgCssClass | src/FlashMessage.php:577-580 | only the message class changes |
| Flash.FlashMessage.SetCssClassMap | src/FlashMessage.php:594-608 | the class map becomes `ClassMapAfter` of the old one; nothing else changes; the invariant is kept |

## Left out

- `start_session` (src/FlashMessage.php:144-151) is not modelled. It registers a WordPress hook that starts the PHP session, which is host I/O.
- `msg_id` (src/FlashMessage.php:128) is not modelled. It is a random hash that nothing reads.
- `header`, `exit` and `wp_die` are not performed. `do_redirect` is the returned outcome `Redirect(url)` or `Die`.
- `wp_kses_post` is WordPress code. `Display` takes it as the function parameter `sanitize` and applies it once to the whole output.
- Flash.FlashMessage.Display: printing with `echo` versus returning is not distinguished. Both are the returned string.
- Flash.FlashMessage.SetMsgWrapper: the wrapper is a three-segment template (prefix, middle, suffix) around two `%s` slots. General `sprintf` format parsing is not modelled.
- Flash.FlashMessage.Sticky: the message is a string. The source's default of `true` for a missing message is not modelled.
- Flash.FlashMessage.constructor: the existing namespace is passed in and is required to hold only the four type buckets. A session written by other code is outside the model.
- Arguments of other PHP types (integers, arrays where a string is expected, non-string messages) are not modelled.
- Flash.FlashMessage.Clear: `display` can visit the key `'0'`, for example for `display("0x")` or `display(["0"])`. Under the class invariant no `'0'` bucket exists, so that visit is skipped and `display` never calls `clear('0')`. In PHP, `clear('0')` would unset the whole namespace, since "0" is falsy. `Cleared` models that case for direct calls.
- An empty string inside the array given to `display` addresses no bucket. PHP indexes it to an empty key that no bucket has.
- `strtolower` is modelled for ASCII letters only. Locale-dependent case mapping is not modelled.
- The `$msg_type` computed at src/FlashMessage.php:396-397 is never read. The class lookup uses the visited type directly, and a missing class reads as the empty string.
- The session is shared between requests, and interleaved requests are not modelled.
- Each `FlashMessage` object holds its own copy of the namespace, taken at construction. In PHP every instance reads and writes the same `$_SESSION['flash_messages']`, so a message added through one instance is shown by another. Sharing the namespace between instances within one request is not modelled.
