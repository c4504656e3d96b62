# Message lookup of the `Language` translator

This project models the `Language` class of lib/language.js, a small
message-localisation helper. A catalog maps each language tag to a nested
message container. The container's leaves are literal messages or builder
functions that render a message from the caller's parameter record.
`translate(key, params)` picks a language from the preferred-language
setting (default `"en"`) through a language-negotiation library. It then
splits the dotted key on `.` and walks the segments through that language's
container with optional chaining. A falsy result (nothing found, or an empty
literal) gives back the key itself. A builder is applied to the parameters.
Anything else is returned as it is, including a container when the key stops
part-way down the tree. `throwError` always fails, with the translated text
as the error message and the untranslated key as its `cause`.

Modules:

- `Wrappers`: `Option` (JavaScript's `undefined`) and `Result` (a thrown error).
- `JsStrings`: `split` and `join` with a one-character separator, and the proof that each undoes the other.
- `Catalog`: the container tree `Node<P>` (`Literal | Builder | Container`), one `?.[segment]` step (`Step`), and the walk (`Walk`, the `reduce`) with its properties.
- `I18n`: the translator as a datatype `Language<P>` with `GetLanguage`, `GetMessage`, `Translate` and `ThrowError`, and the lookup properties.
- `SampleCatalog`: the catalog of tests/language.js and the outcomes those tests expect.

The translator's one field is assigned in the constructor and only read
afterwards. Every operation is a pure function of the catalog and its
arguments, so `Language` is a datatype, not a class. Two inputs that the
source reads from outside become parameters:

- `preference: Option<string>` stands for the `PREFERRED_USER_LANGUAGE` environment variable.
- `negotiate: string -> string` stands for the negotiation library after a constructor has registered its catalog's tags. The library is shared by the whole process, so these are the tags of the most recently constructed `Language` (see "## Left out").

The parameter record has an opaque type `P`, and builders are Dafny function values `P -> string`.

The library's own JSDoc says that the lookup and `translate` return a string
(`@returns {string}` at lib/language.js:44 and lib/language.js:68). The code returns the container object itself when a key names a
container (`"order"`), since objects are truthy. The model follows the code:
`GetMessage` returns a `Message<P>` that is either `Text(s)` or `Object(entries)`.
When that object reaches `new Error(...)` it becomes the text
`"[object Object]"` (`ErrorText`).

## Model

| member | source | states |
|---|---|---|
| JsStrings.Split | lib/language.js:50 | `split('.')` yields one more piece than the key has dots, and no piece contains a dot; empty pieces are kept |
| JsStrings.JoinSplit | lib/language.js:50 | joining the pieces of a split with the separator gives back the original key |
| JsStrings.SplitJoin | lib/language.js:50 | any non-empty list of dot-free segments is recovered exactly by splitting its join, so every segment path has exactly one key |
| Catalog.Step | lib/language.js:51 | one `messageObject?.[keyPart]` step finds a node exactly when the current value is a container with that own key, and then it is that entry; from undefined, a literal or a builder it finds nothing |
| Catalog.Walk | lib/language.js:50-52 | the `reduce` of the step over the segments; once a step yields undefined, `?.` keeps the fold undefined for every remaining segment |
| Catalog.WalkAppend | lib/language.js:50-52 | the reduce over `a + b` is the reduce over `b` started where the reduce over `a` stopped |
| Catalog.WalkDefinedIff | lib/language.js:50-52 | the walk reaches a node if and only if every segment is an own key of the container reached by the segments before it |
| Catalog.WalkStaysUndefined | lib/language.js:50-52 | if segment k is missing, every longer prefix of the path, up to the whole key, walks to undefined |
| I18n.KeyHasPath | lib/language.js:50 | every key is the join of its split, and its split is a valid segment path, so the path lemmas below cover all keys |
| I18n.Language.GetLanguage | lib/language.js:35-37 | the negotiated tag is that of the preference when it is set and non-empty, and that of `"en"` when it is unset or empty |
| I18n.Language.Messages | lib/language.js:48 | the language's container is defined exactly when the catalog has an entry for the tag, and then it is that entry |
| I18n.Falsy | lib/language.js:54 | the `!messageBuilder` test: undefined and the empty string are falsy; a non-empty string, a builder function and a container object are truthy |
| I18n.ErrorText | lib/language.js:90 | the message of `new Error(errorMessage)`: a string message is kept as it is, a container object becomes `"[object Object]"` |
| I18n.Language.GetMessage | lib/language.js:46-61 | a tag with no catalog entry gives the key back, for every key and parameter record; a container result only comes from a language that has an entry |
| I18n.GetMessageLiteral | lib/language.js:50-60 | a non-empty literal at the end of the key's path is returned unchanged |
| I18n.GetMessageBuilder | lib/language.js:57-58 | a builder at the end of the key's path is applied to the supplied parameters, and its text is the result |
| I18n.GetMessageEmptyLiteral | lib/language.js:54-55 | an empty literal at the path counts as missing: the key is returned instead of `""` |
| I18n.GetMessageContainer | lib/language.js:54-60 | a key that stops at a container yields that container object, not the key |
| I18n.GetMessageMissing | lib/language.js:50-55 | if any segment along the path is missing, the result is exactly the key |
| I18n.GetMessageObjectIff | lib/language.js:50-60 | the result is an object if and only if the language has an entry and the key's path ends at a container |
| I18n.Language.Translate | lib/language.js:70-77 | translation is the lookup in the negotiated language (preference, or `"en"` when unset or empty), and gives the key back when that language has no entry; as a function without preconditions on an immutable catalog it cannot fail or change the catalog |
| I18n.TranslateUnsetIsDefault | lib/language.js:36 | an unset preference and an empty preference each translate exactly as an explicit `"en"` preference does |
| I18n.TranslateSameTag | lib/language.js:36 | two preferences that negotiate to the same tag translate every key identically, as `"es-AR"` and `"es"` do |
| I18n.Language.ThrowError | lib/language.js:86-93 | the result is always a failure whose cause is the raw key and whose message is the translated text, made into an error message |
| I18n.ThrowErrorFound | lib/language.js:86-93 | for a key that reaches a non-empty literal, the error's message is that literal and its cause is the key |
| I18n.ThrowErrorMissing | lib/language.js:86-93 | for a key with a missing segment, the error's message and its cause are both the key |
| SampleCatalog.DefaultLiteral | tests/language.js:40-47 | with no preference, `order.notFound` translates to "Order not found" |
| SampleCatalog.DefaultBuilder | tests/language.js:49-58 | with no preference, `order.invalidStatus` with status "pending" translates to "Invalid order status: pending" |
| SampleCatalog.UnknownMessage | tests/language.js:60-67 | `order.unknownMessage` translates to its own key with no preference and with "es" (the second case is tests/language.js lines 91-100) |
| SampleCatalog.PreferredLiteral | tests/language.js:69-89 | with preference "es", or "es-AR" negotiated to "es", `order.notFound` translates to "Pedido no encontrado" |
| SampleCatalog.ThrownErrors | tests/language.js:106-136 | `throwError('order.notFound')` fails with "Order not found" by default and with "Pedido no encontrado" under "es", each with cause `order.notFound` |

## Left out

- Language negotiation (lib/language.js:3, 29, 36) is a foreign library whose code is not part of this model. It is an arbitrary function `negotiate`, and tag matching (section 3.4 of RFC 4647) is not verified. The test scenarios take as a hypothesis that it maps "en" to "en" and both "es" and "es-AR" to "es".
- The constructor's registration of `Object.keys(messagesByLanguage)` with that library (line 29) is folded into `negotiate`. The model does not keep the order of the tags, so the library's fall-back to the first registered tag is not modelled. A library failure at construction is not modelled either. The library's default export is one instance shared by the whole process (line 3), and each constructor call overwrites its registered tags, so with two `Language` instances the tags of the last one constructed decide negotiation for both. The model, with one `negotiate` per call, does not capture that sharing; its lemmas hold for any `negotiate` and so also for the one such sharing produces.
- The environment read `process.env.PREFERRED_USER_LANGUAGE` (line 36) is the explicit argument `preference`.
- JavaScript property lookup beyond own keys is not modelled. This covers inherited keys such as `toString` or `constructor`, in the catalog and in the containers, and indexing into a string (`"length"`, character indices). A container is a finite map of its own keys, and stepping into a literal or a builder finds nothing.
- Catalog values other than strings, functions and plain objects (numbers, `null`, `false`, arrays) are not modelled, so `0` or `false` as falsy values do not arise.
- The bodies of builder functions are opaque function values. An exception a builder throws (for example when destructuring missing parameters) is not modelled.
- I18n.Language.Translate: "never fails" holds only under the previous point, since a throwing builder is not modelled.
- Of the `Error` object only its message and `cause` are modelled. Its name, stack and the throw itself are not. An object message becomes `"[object Object]"`; a container with its own `toString` entry is not modelled.
- docs/examples/language/error-messages/index.js only wires a catalog module into `new Language(...)` and has no logic of its own.
