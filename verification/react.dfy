/** The one React pattern the components share: a hook reads its context
    and throws when the component is used outside its provider. */
module React {
  import opened Js

  /** What a context hook hands a subcomponent, or the error it throws. */
  datatype ContextResult<T> = Provided(context: T) | Thrown(message: string)

  /** `useContext(C)` followed by `if (!context) throw new Error(message)`. */
  function UseContext<T>(provided: Option<T>, message: string): (r: ContextResult<T>)
    ensures r.Thrown? <==> provided.None?
    ensures r.Provided? ==> Some(r.context) == provided
    ensures r.Thrown? ==> r.message == message
  {
    match provided
    case Some(c) => Provided(c)
    case None => Thrown(message)
  }
}
