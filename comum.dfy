/** Types shared by the entry service and the user service: Java's nullable
    references, the two exceptions the services throw, and the failure raised by
    Objects.requireNonNull. */
module Comum {

  /** A Java reference that may be null. */
  datatype Option<T> = None | Some(value: T)

  /** The ways a service call fails. */
  datatype Erro =
    | RegraNegocio(mensagem: string)       // RegraNegocioExpection: a violated business rule
    | ErroAutenticacao(mensagem: string)   // ErroAutenticacao: a failed login
    | IdAusente                            // NullPointerException from Objects.requireNonNull(id)

  /** The outcome of a call that returns a value or throws. */
  datatype Result<T> = Success(value: T) | Failure(error: Erro)

  /** The outcome of a void call that may throw. */
  datatype Outcome = Pass | Fail(error: Erro)

  /** The values of java.lang.Integer (a 32-bit two's-complement int). */
  type Integer = x: int | -0x8000_0000 <= x < 0x8000_0000

  function Max(a: int, b: int): (m: int)
    ensures m >= a && m >= b && (m == a || m == b)
  {
    if a < b then b else a
  }
}
