/** The error type of src/error.rs: its variants, how each one displays,
    the conversions into it, and the `ErrorContext` extension that turns
    any failure into an analysis error carrying a caller-chosen message. */
module Errors {
  import opened Wrappers

  /** A `std::io::Error`, seen through the message it displays. */
  datatype IoError = IoError(message: string)

  /** A `serde_json::Error`, seen through the message it displays. */
  datatype JsonError = JsonError(message: string)

  datatype RustOwlError =
    | Io(io: IoError)
    | CargoMetadata(msg: string)
    | Toolchain(msg: string)
    | Json(json: JsonError)
    | Cache(msg: string)
    | Lsp(msg: string)
    | Analysis(msg: string)
    | Config(msg: string)

  /** The fixed text each variant's display starts with. */
  function Label(e: RustOwlError): (tag: string)
    ensures |tag| > 2 && tag[|tag| - 2..] == ": "
  {
    match e
    case Io(_) => "I/O error: "
    case CargoMetadata(_) => "Cargo metadata error: "
    case Toolchain(_) => "Toolchain error: "
    case Json(_) => "JSON error: "
    case Cache(_) => "Cache error: "
    case Lsp(_) => "LSP error: "
    case Analysis(_) => "Analysis error: "
    case Config(_) => "Configuration error: "
  }

  /** The text that follows the label: the message, or the wrapped error's own display. */
  function Detail(e: RustOwlError): string {
    match e
    case Io(err) => err.message
    case Json(err) => err.message
    case CargoMetadata(m) => m
    case Toolchain(m) => m
    case Cache(m) => m
    case Lsp(m) => m
    case Analysis(m) => m
    case Config(m) => m
  }

  /** `Display for RustOwlError`. */
  function Display(e: RustOwlError): (text: string)
    ensures Label(e) <= text
    ensures text[|Label(e)|..] == Detail(e)
  {
    Label(e) + Detail(e)
  }

  /** The first three characters of each label, which already tell them apart. */
  function Head(e: RustOwlError): string {
    match e
    case Io(_) => "I/O"
    case CargoMetadata(_) => "Car"
    case Toolchain(_) => "Too"
    case Json(_) => "JSO"
    case Cache(_) => "Cac"
    case Lsp(_) => "LSP"
    case Analysis(_) => "Ana"
    case Config(_) => "Con"
  }

  lemma LabelHead(e: RustOwlError)
    ensures |Label(e)| >= 3 && Label(e)[..3] == Head(e)
  {
  }

  lemma HeadInjective(a: RustOwlError, b: RustOwlError)
    requires Head(a) == Head(b)
    ensures Label(a) == Label(b)
  {
    assert Head(a)[0] == Head(b)[0] && Head(a)[1] == Head(b)[1] && Head(a)[2] == Head(b)[2];
  }

  /** No label is a prefix of another variant's label. */
  lemma LabelsPrefixFree(a: RustOwlError, b: RustOwlError)
    requires Label(a) <= Label(b)
    ensures Label(a) == Label(b)
  {
    LabelHead(a);
    LabelHead(b);
    assert Label(a)[..3] == Label(b)[..3];
    HeadInjective(a, b);
  }

  /** Equal labels mean the same variant. */
  lemma LabelInjective(a: RustOwlError, b: RustOwlError)
    requires Label(a) == Label(b)
    ensures a.Io? == b.Io? && a.CargoMetadata? == b.CargoMetadata? && a.Toolchain? == b.Toolchain?
    ensures a.Json? == b.Json? && a.Cache? == b.Cache? && a.Lsp? == b.Lsp?
    ensures a.Analysis? == b.Analysis? && a.Config? == b.Config?
  {
  }

  /** Different errors never display the same text. */
  lemma DisplayInjective(a: RustOwlError, b: RustOwlError)
    requires Display(a) == Display(b)
    ensures a == b
  {
    var t := Display(a);
    if |Label(a)| <= |Label(b)| {
      assert Label(a) <= Label(b) by {
        assert Label(a) == t[..|Label(a)|] && Label(b) == t[..|Label(b)|];
      }
      LabelsPrefixFree(a, b);
    } else {
      assert Label(b) <= Label(a) by {
        assert Label(a) == t[..|Label(a)|] && Label(b) == t[..|Label(b)|];
      }
      LabelsPrefixFree(b, a);
    }
    LabelInjective(a, b);
    assert Detail(a) == Detail(b);
  }

  // ---------------------------------------------------------------------------
  // Conversions.

  /** `From<std::io::Error>`: always the `Io` variant, with the error kept. */
  function FromIo(err: IoError): (e: RustOwlError)
    ensures e.Io? && e.io == err
    ensures Display(e) == "I/O error: " + err.message
  {
    Io(err)
  }

  /** `From<serde_json::Error>`: always the `Json` variant, with the error kept. */
  function FromJson(err: JsonError): (e: RustOwlError)
    ensures e.Json? && e.json == err
    ensures Display(e) == "JSON error: " + err.message
  {
    Json(err)
  }

  /** Distinct underlying errors stay distinguishable after conversion. */
  lemma ConversionsInjective(a: IoError, b: IoError, c: JsonError, d: JsonError)
    ensures Display(FromIo(a)) == Display(FromIo(b)) ==> a == b
    ensures Display(FromJson(c)) == Display(FromJson(d)) ==> c == d
    ensures Display(FromIo(a)) != Display(FromJson(c))
  {
    if Display(FromIo(a)) == Display(FromIo(b)) {
      DisplayInjective(FromIo(a), FromIo(b));
    }
    if Display(FromJson(c)) == Display(FromJson(d)) {
      DisplayInjective(FromJson(c), FromJson(d));
    }
    if Display(FromIo(a)) == Display(FromJson(c)) {
      DisplayInjective(FromIo(a), FromJson(c));
    }
  }

  /** How the message-carrying variants read, as the tests spell them out. */
  lemma DisplayExamples(msg: string)
    ensures Display(CargoMetadata(msg)) == "Cargo metadata error: " + msg
    ensures Display(Toolchain(msg)) == "Toolchain error: " + msg
    ensures Display(Config(msg)) == "Configuration error: " + msg
  {
  }

  // ---------------------------------------------------------------------------
  // ErrorContext.

  /** `with_context` on a `Result`: success passes through, and any error is
      replaced by an analysis error whose message the closure produces. */
  function ResultWithContext<T, E>(r: Result<T, E>, f: () -> string): (out: Result<T, RustOwlError>)
    ensures r.Ok? <==> out.Ok?
    ensures r.Ok? ==> out.value == r.value
    ensures r.Err? ==> out.error.Analysis? && out.error.msg == f()
  {
    match r
    case Ok(v) => Ok(v)
    case Err(_) => Err(Analysis(f()))
  }

  /** `context` on a `Result`: `with_context` with a closure returning `msg`. */
  function ResultContext<T, E>(r: Result<T, E>, msg: string): (out: Result<T, RustOwlError>)
    ensures r.Ok? ==> out == Ok(r.value)
    ensures r.Err? ==> out == Err(Analysis(msg))
  {
    ResultWithContext(r, () => msg)
  }

  /** `with_context` on an `Option`: `Some` passes through, `None` becomes an analysis error. */
  function OptionWithContext<T>(o: Option<T>, f: () -> string): (out: Result<T, RustOwlError>)
    ensures o.Some? <==> out.Ok?
    ensures o.Some? ==> out.value == o.value
    ensures o.None? ==> out.error.Analysis? && out.error.msg == f()
  {
    match o
    case Some(v) => Ok(v)
    case None => Err(Analysis(f()))
  }

  /** `context` on an `Option`. */
  function OptionContext<T>(o: Option<T>, msg: string): (out: Result<T, RustOwlError>)
    ensures o.Some? ==> out == Ok(o.value)
    ensures o.None? ==> out == Err(Analysis(msg))
  {
    OptionWithContext(o, () => msg)
  }

  /** The original error is discarded: which error occurred makes no difference. */
  lemma ContextForgetsError<T, E>(e1: E, e2: E, msg: string)
    ensures var r1: Result<T, E>, r2: Result<T, E> := Err(e1), Err(e2);
      ResultContext(r1, msg) == ResultContext(r2, msg)
  {
  }

  /** An `Option` behaves like the `Result` that carries no error information. */
  lemma OptionContextAsResult<T>(o: Option<T>, msg: string)
    ensures OptionContext(o, msg) == ResultContext(if o.Some? then Ok(o.value) else Err(()), msg)
  {
  }

  /** A contextualised failure displays as "Analysis error: " followed by the message. */
  lemma ContextDisplay<T, E>(r: Result<T, E>, msg: string)
    requires r.Err?
    ensures Display(ResultContext(r, msg).error) == "Analysis error: " + msg
  {
  }

  /** Adding context again replaces the message; success is never touched. */
  lemma ContextChaining<T, E>(r: Result<T, E>, m1: string, m2: string)
    ensures ResultContext(ResultContext(r, m1), m2) == ResultContext(r, m2)
  {
  }

  /** Mapping a success commutes with adding context. */
  lemma ContextMap<T, U, E>(r: Result<T, E>, msg: string, g: T -> U)
    ensures (var c := ResultContext(r, msg); if c.Ok? then Ok(g(c.value)) else c.PropagateFailure())
      == ResultContext(if r.Ok? then Ok(g(r.value)) else Err(r.error), msg)
  {
  }
}
