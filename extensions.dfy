/**
 * The result type every service operation returns (`ErroOr<T>`) and the
 * conversion of a caught fault into a failure of that type
 * (`ToErroOrFailure`).
 */
module Extensions {
  import opened Strings

  datatype Option<T> = None | Some(value: T)

  /**
   * Either a success carrying the operation's result or a failure carrying
   * an error string. The record struct's three properties are the
   * accessors below; `None` stands for the `default`/`null` the other case
   * leaves in a property.
   */
  datatype ErroOr<T> = Ok(value: T) | Err(message: string)
  {
    predicate IsSuccess()
    {
      Ok?
    }

    function Result(): Option<T>
    {
      if Ok? then Some(value) else None
    }

    function Error(): Option<string>
    {
      if Err? then Some(message) else None
    }
  }

  /** The success factory: no check of its argument, a `null` payload included. */
  function Success<T>(resultado: T): (r: ErroOr<T>)
    ensures r.IsSuccess()
    ensures r.Result() == Some(resultado)
    ensures r.Error() == None
  {
    Ok(resultado)
  }

  /** The failure factory: any string is accepted as the error. */
  function Failed<T>(erro: string): (r: ErroOr<T>)
    ensures !r.IsSuccess()
    ensures r.Result() == None
    ensures r.Error() == Some(erro)
  {
    Err(erro)
  }

  /** `IsSuccess` alone decides which of `Result` and `Error` is meaningful. */
  lemma ExactlyOneMeaningful<T>(r: ErroOr<T>)
    ensures r.IsSuccess() <==> r.Result().Some?
    ensures r.IsSuccess() <==> r.Error().None?
  {
  }

  /** Equality is structural: equal properties make equal values. */
  lemma StructuralEquality<T>(a: ErroOr<T>, b: ErroOr<T>)
    requires a.IsSuccess() == b.IsSuccess()
    requires a.Result() == b.Result()
    requires a.Error() == b.Error()
    ensures a == b
  {
  }

  /** A raised fault: its message and the fault it wraps, if any. */
  datatype Fault = Fault(message: string, inner: Option<Fault>)

  /**
   * What a failure reports as its cause: the message of the immediately
   * wrapped fault when there is one, otherwise the fault's own message.
   */
  function Cause(ex: Fault): (cause: string)
    ensures ex.inner.Some? ==> cause == ex.inner.value.message
    ensures ex.inner.None? ==> cause == ex.message
  {
    match ex.inner
    case Some(wrapped) => wrapped.message
    case None => ex.message
  }

  const CodeLabel: string := "Código: "
  const CauseLabel: string := ", Erro: "

  /** The error string of a converted fault: the call site's code, then the cause. */
  function FailureMessage(code: string, cause: string): string
  {
    CodeLabel + code + CauseLabel + cause
  }

  /** A failure message names both its call site's code and its cause, verbatim. */
  lemma {:induction false} FailureMessageMentions(code: string, cause: string)
    ensures Contains(FailureMessage(code, cause), code)
    ensures Contains(FailureMessage(code, cause), cause)
    ensures FailureMessage(code, cause)[..|CodeLabel| + |code|] == CodeLabel + code
  {
    ContainsMiddle(CodeLabel, code, CauseLabel + cause);
    assert CodeLabel + code + (CauseLabel + cause) == FailureMessage(code, cause);
    ContainsMiddle(CodeLabel + code + CauseLabel, cause, "");
    assert CodeLabel + code + CauseLabel + cause + "" == FailureMessage(code, cause);
  }

  /**
   * Converts a caught fault into a failure tagged with `code`: never a
   * success, and the error names the code and the cause.
   */
  function ToErroOrFailure<T>(ex: Fault, code: string): (r: ErroOr<T>)
    ensures !r.IsSuccess()
    ensures r.Error() == Some(FailureMessage(code, Cause(ex)))
    ensures Contains(r.message, code) && Contains(r.message, Cause(ex))
  {
    FailureMessageMentions(code, Cause(ex));
    Failed(FailureMessage(code, Cause(ex)))
  }

  /**
   * Only one level of wrapping is undone: a fault nested two deep
   * contributes the middle fault's message, never the deepest one's.
   */
  lemma OnlyOneLevelUnwrapped(outer: string, middle: string, deepest: Fault, code: string)
    ensures ToErroOrFailure<bool>(Fault(outer, Some(Fault(middle, Some(deepest)))), code).message
         == FailureMessage(code, middle)
  {
  }
}
