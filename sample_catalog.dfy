/**
 * The catalog the library's tests use, and the behaviour they expect of it.
 * The negotiation library is taken to map "en" to "en", and both "es" and
 * "es-AR" to "es" (lookup matching, section 3.4 of RFC 4647).
 */
module SampleCatalog {
  import opened Wrappers
  import opened JsStrings
  import opened Catalog
  import opened I18n

  /** A parameter record with string values. */
  type Params = map<string, string>

  /** A template's `${name}`: the parameter's value, or "undefined" when it is absent. */
  function Param(params: Params, name: string): string
  {
    if name in params then params[name] else "undefined"
  }

  /** The "order" container of the given language: a literal and a builder. */
  function Orders(notFound: string, invalidStatus: string): Node<Params>
  {
    Container(map[
      "notFound" := Literal(notFound),
      "invalidStatus" := Builder((p: Params) => invalidStatus + Param(p, "status"))])
  }

  function SampleMessages(): map<string, Node<Params>>
  {
    map[
      "en" := Container(map["order" := Orders("Order not found", "Invalid order status: ")]),
      "es" := Container(map["order" := Orders("Pedido no encontrado", "Estado de pedido inválido: ")])
    ]
  }

  /** The negotiation behaviour the tests rely on. */
  predicate NegotiatesSampleTags(negotiate: string -> string)
  {
    negotiate("en") == "en" && negotiate("es") == "es" && negotiate("es-AR") == "es"
  }

  /** The segments of the keys the tests use. */
  lemma OrderKeys(name: string)
    requires name == "notFound" || name == "invalidStatus" || name == "unknownMessage"
    ensures KeyPath(["order", name])
    ensures Join(["order", name], KEY_SEPARATOR) == "order." + name
  {
    assert KEY_SEPARATOR !in "order";
    assert KEY_SEPARATOR !in name;
  }

  /** The walk of `order.<name>` in the container of `tag`. */
  lemma WalkOrder(tag: string, notFound: string, invalidStatus: string, name: string)
    requires tag in SampleMessages()
    requires SampleMessages()[tag].entries["order"] == Orders(notFound, invalidStatus)
    ensures Walk(Some(SampleMessages()[tag]), ["order", name])
         == Step(Some(Orders(notFound, invalidStatus)), name)
  {
    var root := SampleMessages()[tag];
    assert Step(Some(root), "order") == Some(Orders(notFound, invalidStatus));
    assert ["order", name][1..] == [name];
    assert Walk(Some(root), ["order", name]) == Walk(Some(Orders(notFound, invalidStatus)), [name]);
  }

  /*
   * In the scenarios below the key is a parameter fixed by a precondition,
   * so that the verifier reasons about its split through `OrderKeys` rather
   * than by evaluating `Split` on a string literal.
   */

  /** No preference: a literal in English. */
  lemma DefaultLiteral(negotiate: string -> string, key: string, params: Params)
    requires NegotiatesSampleTags(negotiate)
    requires key == "order.notFound"
    ensures Language(SampleMessages()).Translate(None, negotiate, key, params)
         == Text("Order not found")
  {
    var language, segments := Language(SampleMessages()), ["order", "notFound"];
    assert key == Join(segments, KEY_SEPARATOR) by { OrderKeys("notFound"); }
    assert language.GetLanguage(None, negotiate) == "en";
    assert language.GetMessage("en", Join(segments, KEY_SEPARATOR), params)
        == Text("Order not found") by {
      OrderKeys("notFound");
      WalkOrder("en", "Order not found", "Invalid order status: ", "notFound");
      GetMessageLiteral(language, "en", segments, params, "Order not found");
    }
  }

  /** No preference: the English builder applied to the parameters. */
  lemma DefaultBuilder(negotiate: string -> string, key: string, params: Params)
    requires NegotiatesSampleTags(negotiate)
    requires key == "order.invalidStatus" && params == map["status" := "pending"]
    ensures Language(SampleMessages()).Translate(None, negotiate, key, params)
         == Text("Invalid order status: pending")
  {
    var language, segments := Language(SampleMessages()), ["order", "invalidStatus"];
    var orders := Orders("Order not found", "Invalid order status: ");
    var build := orders.entries["invalidStatus"].build;
    assert key == Join(segments, KEY_SEPARATOR) by { OrderKeys("invalidStatus"); }
    assert language.GetLanguage(None, negotiate) == "en";
    assert build(params) == "Invalid order status: pending" by { RenderStatus(orders, params); }
    assert language.GetMessage("en", Join(segments, KEY_SEPARATOR), params)
        == Text(build(params)) by {
      OrderKeys("invalidStatus");
      assert Walk(Some(SampleMessages()["en"]), segments) == Some(Builder(build)) by {
        WalkOrder("en", "Order not found", "Invalid order status: ", "invalidStatus");
      }
      GetMessageBuilder(language, "en", segments, params, build);
    }
  }

  /** The builder of the English "order" container renders the `status` parameter. */
  lemma RenderStatus(orders: Node<Params>, params: Params)
    requires orders == Orders("Order not found", "Invalid order status: ")
    requires params == map["status" := "pending"]
    ensures orders.entries["invalidStatus"].build(params) == "Invalid order status: pending"
  {
    assert Param(params, "status") == "pending";
  }

  /** `order.unknownMessage` is missing its second segment in both languages. */
  lemma UnknownInSample(tag: string)
    requires tag == "en" || tag == "es"
    ensures !Descends(SampleMessages()[tag], ["order", "unknownMessage"], 1)
  {
    var segments := ["order", "unknownMessage"];
    assert segments[..1] == ["order"];
    assert Walk(Some(SampleMessages()[tag]), segments[..1])
        == Some(SampleMessages()[tag].entries["order"]);
  }

  /** A missing message gives back its key, with no preference or with "es". */
  lemma UnknownMessage(negotiate: string -> string, preference: Option<string>, key: string,
                       params: Params)
    requires NegotiatesSampleTags(negotiate)
    requires preference == None || preference == Some("es")
    requires key == "order.unknownMessage"
    ensures Language(SampleMessages()).Translate(preference, negotiate, key, params) == Text(key)
  {
    var language, segments := Language(SampleMessages()), ["order", "unknownMessage"];
    var tag := if preference == None then "en" else "es";
    assert key == Join(segments, KEY_SEPARATOR) by { OrderKeys("unknownMessage"); }
    assert language.GetLanguage(preference, negotiate) == tag;
    assert language.GetMessage(tag, Join(segments, KEY_SEPARATOR), params)
        == Text(Join(segments, KEY_SEPARATOR)) by {
      OrderKeys("unknownMessage");
      UnknownInSample(tag);
      GetMessageMissing(language, tag, segments, params, 1);
    }
  }

  /** Preference "es", or "es-AR" negotiated to "es": the Spanish literal. */
  lemma PreferredLiteral(negotiate: string -> string, preferred: string, key: string,
                         params: Params)
    requires NegotiatesSampleTags(negotiate)
    requires preferred == "es" || preferred == "es-AR"
    requires key == "order.notFound"
    ensures Language(SampleMessages()).Translate(Some(preferred), negotiate, key, params)
         == Text("Pedido no encontrado")
  {
    var language, segments := Language(SampleMessages()), ["order", "notFound"];
    assert key == Join(segments, KEY_SEPARATOR) by { OrderKeys("notFound"); }
    assert language.GetLanguage(Some(preferred), negotiate) == "es";
    assert language.GetMessage("es", Join(segments, KEY_SEPARATOR), params)
        == Text("Pedido no encontrado") by {
      OrderKeys("notFound");
      WalkOrder("es", "Pedido no encontrado", "Estado de pedido inválido: ", "notFound");
      GetMessageLiteral(language, "es", segments, params, "Pedido no encontrado");
    }
  }

  /** The thrown error: the translated text as message, the key as cause. */
  lemma ThrownErrors(negotiate: string -> string, key: string, params: Params)
    requires NegotiatesSampleTags(negotiate)
    requires key == "order.notFound"
    ensures Language(SampleMessages()).ThrowError(None, negotiate, key, params)
         == Failure(TranslatedError("Order not found", key))
    ensures Language(SampleMessages()).ThrowError(Some("es"), negotiate, key, params)
         == Failure(TranslatedError("Pedido no encontrado", key))
  {
    DefaultLiteral(negotiate, key, params);
    PreferredLiteral(negotiate, "es", key, params);
  }
}
