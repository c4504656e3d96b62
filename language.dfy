/**
 * The `Language` translator: negotiates a language from the caller's
 * preference, resolves a dotted message key in that language's container, and
 * renders it, falling back to the key itself when nothing usable is found.
 */
module I18n {
  import opened Wrappers
  import opened JsStrings
  import opened Catalog

  /** The tag used when no preferred language is set. */
  const DEFAULT_LANGUAGE: string := "en"

  /** Separator between the segments of a message key. */
  const KEY_SEPARATOR: char := '.'

  /**
   * What a lookup yields: a message text, or the container object the key
   * stopped at (returned as-is by the source).
   */
  datatype Message<!P> = Text(text: string) | Object(entries: map<string, Node<P>>)

  /** The thrown error: its message and its `cause` (the untranslated key). */
  datatype TranslatedError = TranslatedError(message: string, cause: string)

  /** A list of key segments that the dotted key `Join(segments, '.')` names. */
  predicate KeyPath(segments: seq<string>)
  {
    |segments| >= 1 && forall i :: 0 <= i < |segments| ==> KEY_SEPARATOR !in segments[i]
  }

  /**
   * JavaScript falsiness of the value the walk reached: undefined and the
   * empty string are falsy; a non-empty string, a function and an object
   * are truthy.
   */
  predicate Falsy<P>(reached: Option<Node<P>>): (r: bool)
    ensures reached.None? ==> r
    ensures reached.Some? && reached.value.Literal? ==> (r <==> reached.value.text == "")
    ensures reached.Some? && (reached.value.Builder? || reached.value.Container?) ==> !r
  {
    reached.None? || (reached.value.Literal? && reached.value.text == "")
  }

  /**
   * The message text of `new Error(message)`: a string stays as it is, a plain
   * object is converted to `"[object Object]"`.
   */
  function ErrorText<P>(message: Message<P>): (r: string)
    ensures message.Text? ==> r == message.text
    ensures message.Object? ==> r == "[object Object]"
  {
    match message
    case Text(s) => s
    case Object(_) => "[object Object]"
  }

  /**
   * The translator. Its catalog maps each supported language tag to that
   * language's message container; it is set once and only read afterwards.
   * `negotiate` stands for the language-negotiation library, already told
   * the supported tags, and `preference` for the preferred-language setting.
   */
  datatype Language<!P> = Language(messagesByLanguage: map<string, Node<P>>)
  {
    /** The container for `language`, undefined when the catalog has no such entry. */
    function Messages(language: string): (r: Option<Node<P>>)
      ensures r.Some? <==> language in messagesByLanguage
      ensures r.Some? ==> r.value == messagesByLanguage[language]
    {
      if language in messagesByLanguage then Some(messagesByLanguage[language]) else None
    }

    /** The negotiated language for the preference, or for "en" when it is unset or empty. */
    function GetLanguage(preference: Option<string>, negotiate: string -> string): (r: string)
      ensures preference.Some? && preference.value != "" ==> r == negotiate(preference.value)
      ensures preference.None? || preference.value == "" ==> r == negotiate(DEFAULT_LANGUAGE)
    {
      var requested := if preference.Some? && preference.value != "" then preference.value
                       else DEFAULT_LANGUAGE;
      negotiate(requested)
    }

    /**
     * Resolves `messageKey` in the container for `language`: a falsy value
     * gives the key back, a builder is applied to `params`, anything else
     * is returned as it is.
     */
    function GetMessage(language: string, messageKey: string, params: P): (r: Message<P>)
      ensures language !in messagesByLanguage ==> r == Text(messageKey)
      ensures r.Object? ==> language in messagesByLanguage
    {
      var segments := Split(messageKey, KEY_SEPARATOR);
      var reached := Walk(Messages(language), segments);
      if Falsy(reached) then Text(messageKey)
      else match reached.value
        case Builder(build) => Text(build(params))
        case Literal(text) => Text(text)
        case Container(entries) => Object(entries)
    }

    /** Resolves `messageKey` in the negotiated language; never fails. */
    function Translate(preference: Option<string>, negotiate: string -> string,
                       messageKey: string, params: P): (r: Message<P>)
      ensures r == GetMessage(GetLanguage(preference, negotiate), messageKey, params)
      ensures GetLanguage(preference, negotiate) !in messagesByLanguage ==> r == Text(messageKey)
    {
      var language := GetLanguage(preference, negotiate);
      GetMessage(language, messageKey, params)
    }

    /**
     * Always fails, with the translated text as the error message and the
     * untranslated key as its cause.
     */
    function ThrowError(preference: Option<string>, negotiate: string -> string,
                        messageKey: string, params: P): (r: Result<(), TranslatedError>)
      ensures r.Failure?
      ensures r.error.cause == messageKey
      ensures r.error.message == ErrorText(Translate(preference, negotiate, messageKey, params))
    {
      var errorMessage := ErrorText(Translate(preference, negotiate, messageKey, params));
      Failure(TranslatedError(errorMessage, messageKey))
    }
  }

  /** Every key names a key path: its split, which joins back to the key. */
  lemma KeyHasPath(messageKey: string)
    ensures KeyPath(Split(messageKey, KEY_SEPARATOR))
    ensures Join(Split(messageKey, KEY_SEPARATOR), KEY_SEPARATOR) == messageKey
  {
    JoinSplit(messageKey, KEY_SEPARATOR);
  }

  /** A non-empty literal at the end of the path is returned unchanged. */
  lemma GetMessageLiteral<P>(language: Language<P>, tag: string, segments: seq<string>,
                             params: P, text: string)
    requires KeyPath(segments) && tag in language.messagesByLanguage
    requires Walk(Some(language.messagesByLanguage[tag]), segments) == Some(Literal(text))
    requires text != ""
    ensures language.GetMessage(tag, Join(segments, KEY_SEPARATOR), params) == Text(text)
  {
    SplitJoin(segments, KEY_SEPARATOR);
  }

  /** A builder at the end of the path is applied to the caller's parameters. */
  lemma GetMessageBuilder<P>(language: Language<P>, tag: string, segments: seq<string>,
                             params: P, build: P -> string)
    requires KeyPath(segments) && tag in language.messagesByLanguage
    requires Walk(Some(language.messagesByLanguage[tag]), segments) == Some(Builder(build))
    ensures language.GetMessage(tag, Join(segments, KEY_SEPARATOR), params) == Text(build(params))
  {
    SplitJoin(segments, KEY_SEPARATOR);
  }

  /** An empty literal counts as missing: the key is returned, not "". */
  lemma GetMessageEmptyLiteral<P>(language: Language<P>, tag: string, segments: seq<string>,
                                  params: P)
    requires KeyPath(segments) && tag in language.messagesByLanguage
    requires Walk(Some(language.messagesByLanguage[tag]), segments) == Some(Literal(""))
    ensures language.GetMessage(tag, Join(segments, KEY_SEPARATOR), params)
         == Text(Join(segments, KEY_SEPARATOR))
  {
    SplitJoin(segments, KEY_SEPARATOR);
  }

  /** A key that stops at a container yields that container, not the key. */
  lemma GetMessageContainer<P>(language: Language<P>, tag: string, segments: seq<string>,
                               params: P, entries: map<string, Node<P>>)
    requires KeyPath(segments) && tag in language.messagesByLanguage
    requires Walk(Some(language.messagesByLanguage[tag]), segments) == Some(Container(entries))
    ensures language.GetMessage(tag, Join(segments, KEY_SEPARATOR), params) == Object(entries)
  {
    SplitJoin(segments, KEY_SEPARATOR);
  }

  /** A missing segment anywhere along the path gives back exactly the key. */
  lemma GetMessageMissing<P>(language: Language<P>, tag: string, segments: seq<string>,
                             params: P, k: nat)
    requires KeyPath(segments) && tag in language.messagesByLanguage
    requires k < |segments| && !Descends(language.messagesByLanguage[tag], segments, k)
    ensures language.GetMessage(tag, Join(segments, KEY_SEPARATOR), params)
         == Text(Join(segments, KEY_SEPARATOR))
  {
    SplitJoin(segments, KEY_SEPARATOR);
    WalkStaysUndefined(language.messagesByLanguage[tag], segments, k);
    assert segments[..|segments|] == segments;
  }

  /**
   * The result is an object exactly when the path ends at a container,
   * and then it is that container.
   */
  lemma GetMessageObjectIff<P>(language: Language<P>, tag: string, segments: seq<string>,
                               params: P)
    requires KeyPath(segments)
    ensures language.GetMessage(tag, Join(segments, KEY_SEPARATOR), params).Object?
        <==> tag in language.messagesByLanguage
             && Walk(Some(language.messagesByLanguage[tag]), segments).Some?
             && Walk(Some(language.messagesByLanguage[tag]), segments).value.Container?
  {
    SplitJoin(segments, KEY_SEPARATOR);
  }

  /** An unset preference and an empty one behave as the default language "en". */
  lemma TranslateUnsetIsDefault<P>(language: Language<P>, negotiate: string -> string,
                                   messageKey: string, params: P)
    ensures language.Translate(None, negotiate, messageKey, params)
         == language.Translate(Some(DEFAULT_LANGUAGE), negotiate, messageKey, params)
    ensures language.Translate(Some(""), negotiate, messageKey, params)
         == language.Translate(None, negotiate, messageKey, params)
  {
  }

  /** Preferences that negotiate to the same tag translate every key alike. */
  lemma TranslateSameTag<P>(language: Language<P>, negotiate: string -> string,
                            preferred: string, other: string, messageKey: string, params: P)
    requires preferred != "" && other != ""
    requires negotiate(preferred) == negotiate(other)
    ensures language.Translate(Some(preferred), negotiate, messageKey, params)
         == language.Translate(Some(other), negotiate, messageKey, params)
  {
  }

  /** The thrown error carries a found literal as its message and the key as its cause. */
  lemma ThrowErrorFound<P>(language: Language<P>, preference: Option<string>,
                           negotiate: string -> string, segments: seq<string>,
                           params: P, text: string)
    requires KeyPath(segments)
    requires language.GetLanguage(preference, negotiate) in language.messagesByLanguage
    requires Walk(Some(language.messagesByLanguage[language.GetLanguage(preference, negotiate)]),
                  segments) == Some(Literal(text))
    requires text != ""
    ensures language.ThrowError(preference, negotiate, Join(segments, KEY_SEPARATOR), params)
         == Failure(TranslatedError(text, Join(segments, KEY_SEPARATOR)))
  {
    GetMessageLiteral(language, language.GetLanguage(preference, negotiate), segments, params, text);
  }

  /** The thrown error carries a missing key both as its message and as its cause. */
  lemma ThrowErrorMissing<P>(language: Language<P>, preference: Option<string>,
                             negotiate: string -> string, segments: seq<string>,
                             params: P, k: nat)
    requires KeyPath(segments)
    requires language.GetLanguage(preference, negotiate) in language.messagesByLanguage
    requires k < |segments|
    requires !Descends(language.messagesByLanguage[language.GetLanguage(preference, negotiate)],
                       segments, k)
    ensures language.ThrowError(preference, negotiate, Join(segments, KEY_SEPARATOR), params)
         == Failure(TranslatedError(Join(segments, KEY_SEPARATOR), Join(segments, KEY_SEPARATOR)))
  {
    GetMessageMissing(language, language.GetLanguage(preference, negotiate), segments, params, k);
  }
}
