# Minhas Finanças: entry and user business rules in Dafny

This project models the business rules of a personal finance tracker. Users
record financial entries (*lançamentos*): incomes and expenses with a
description, month, year, value, type, owner and status.

The model has two services:

- **LancamentoServiceImpl** works on entries. It runs the six-rule validation
  chain (`validar`), and it saves, updates, deletes and changes the status of
  entries (`salvar`, `atualizar`, `deletar`, `atualizarStatus`). The store it
  writes to is a `map<int, LancamentoDados>` keyed by entry id.
- **The user service** covers registration and login. Its contract is the one
  the assertions of `UsuarioServiceTest` pin down: `autenticar`, `validarEmail`
  and `salvarUsuario`. Its store is the sequence of saved user rows.

Files:

- `comum.dfy` (module `Comum`) holds the shared types. `Option` stands for a
  nullable Java reference. `Erro` has one case per failure: the business-rule
  exception, the authentication exception, and the `NullPointerException` that
  `Objects.requireNonNull` throws on a missing id. `Result` and `Outcome` wrap
  calls that return a value or nothing. `Integer` is the 32-bit range of
  `java.lang.Integer`.
- `java_texto.dfy` (module `JavaTexto`) models the two `java.lang` operations
  that the rules depend on:
  - `String.trim()`, which strips leading and trailing characters at most
    U+0020;
  - `Integer.toString()`, which gives a minus sign and then the decimal digits.
  It also proves what each rule tests. `s.trim().equals("")` holds exactly when
  every character of `s` is at most U+0020. The text of `n` has four characters
  exactly when `n` is in 1000..9999 or in -999..-100.
- `usuarios.dfy` (module `Usuarios`) holds the user record and the store
  queries `existsByEmail`, `findByEmail` and `save`. It also holds
  `ValidarEmail`, `Autenticar` and the class `UsuarioService`, whose method
  `SalvarUsuario` writes to the store.
- `lancamentos.dfy` (module `Lancamentos`) holds:
  - the entry's field values (`LancamentoDados`);
  - the entity object (`Lancamento`), whose status the service assigns in place
    and which gets its id when saved;
  - the six rules, each as its own predicate;
  - `Validar`, written as the literal guard chain;
  - the class `LancamentoService`, which owns the entry store.

Each store class has a `Valid()` invariant, and every method preserves it:

- Entry store: every stored entry sits under its own id and passes all six
  rules. In other words, no invalid entry ever reaches the store.
- User store: no two rows share an e-mail, no two rows share an id, and every
  row has an id.

Behaviour of the code as written, which the model keeps:

- The year rule tests the length of `ano.toString()`. So a negative year from
  -999 to -100 passes, and the rule is not "four digits". Read as "four
  digits", the rule would accept only 1000..9999; this model follows the code.
- `valor.compareTo(ZERO) < 1` rejects zero as well as negative values. Values
  are exact `real`s.
- `atualizarStatus` accepts a null status. `validar` never looks at the
  status, so a valid entry is then stored without one.
- `atualizarStatus` assigns the status before it calls `atualizar`. When
  `atualizar` then fails (missing id or a broken rule), the store is unchanged
  but the caller's entity keeps the new status.
- `atualizar` and `deletar` check for an id before anything else. `deletar`
  never validates the other fields.

## Model

| member | source | states |
|---|---|---|
| `Lancamentos.ValidarPrimeiraRegraViolada` | src/main/java/com/dreis/minhasfinancas/service/impl/LancamentoServiceImpl.java:73-97 | validar passes iff all six rules hold; otherwise it fails with the exact message of the first broken rule, in the order descricao, mes, ano, usuario, valor, tipo |
| `Lancamentos.Validar` | src/main/java/com/dreis/minhasfinancas/service/impl/LancamentoServiceImpl.java:73-97 | every failure of validar is a business-rule error |
| `Lancamentos.ValidarIgnoraIdEStatus` | src/main/java/com/dreis/minhasfinancas/service/impl/LancamentoServiceImpl.java:73-97 | validar's verdict does not depend on the entry's id or status, so forcing or assigning the status cannot change it |
| `JavaTexto.TrimsToEmpty` | src/main/java/com/dreis/minhasfinancas/service/impl/LancamentoServiceImpl.java:74 | the test `descricao.trim().equals("")` holds exactly when the description is blank |
| `JavaTexto.Trim` | src/main/java/com/dreis/minhasfinancas/service/impl/LancamentoServiceImpl.java:74 | the trimmed description is empty exactly when every character is at most U+0020; a non-empty result starts and ends with a character above U+0020 |
| `JavaTexto.IntegerToString` | src/main/java/com/dreis/minhasfinancas/service/impl/LancamentoServiceImpl.java:82 | `Integer.toString()`: a non-empty text that starts with a minus sign exactly when n is negative, followed by the digits |
| `JavaTexto.IntegerToStringLength4` | src/main/java/com/dreis/minhasfinancas/service/impl/LancamentoServiceImpl.java:82 | the decimal text of the year has length 4 exactly for 1000..9999 and -999..-100 |
| `JavaTexto.HasFourCharacters` | src/main/java/com/dreis/minhasfinancas/service/impl/LancamentoServiceImpl.java:82 | the test `ano.toString().length() == 4`, characterised by the year's range |
| `Lancamentos.LancamentoService.constructor` | src/main/java/com/dreis/minhasfinancas/service/impl/LancamentoServiceImpl.java:26-28 | the service starts over an empty entry store that satisfies the store invariant |
| `Lancamentos.LancamentoService.Gravar` | src/main/java/com/dreis/minhasfinancas/service/impl/LancamentoServiceImpl.java:35 | repository.save writes the entity under its id; an entity without an id gets a fresh id that no stored entry has; nothing else in the store changes |
| `Lancamentos.LancamentoService.Salvar` | src/main/java/com/dreis/minhasfinancas/service/impl/LancamentoServiceImpl.java:32-36 | an invalid entry fails with validar's error and changes neither the store nor the entity; a valid one is stored with status PENDENTE, whatever its status was, and the saved record is returned |
| `Lancamentos.LancamentoService.Atualizar` | src/main/java/com/dreis/minhasfinancas/service/impl/LancamentoServiceImpl.java:40-44 | no id: fails before validation and leaves the store untouched; an invalid entry fails with validar's error and changes nothing; a valid entry is written under its id with its status unchanged |
| `Lancamentos.LancamentoService.Deletar` | src/main/java/com/dreis/minhasfinancas/service/impl/LancamentoServiceImpl.java:49-52 | no id: fails and leaves the store untouched; otherwise exactly the entry under that id is removed, with no validation |
| `Lancamentos.LancamentoService.AtualizarStatus` | src/main/java/com/dreis/minhasfinancas/service/impl/LancamentoServiceImpl.java:67-70 | the entity always ends with the given status, null included; the store receives it only when the entity has an id and passes all six rules, and otherwise the store is unchanged and the error of atualizar is returned |
| `Usuarios.ExisteEmail` | src/test/java/com/dreis/minhasfinancas/service/UsuarioServiceTest.java:131-141 | existsByEmail: some stored row has exactly this e-mail, with null matching null |
| `Usuarios.ObterPorEmail` | src/test/java/com/dreis/minhasfinancas/service/UsuarioServiceTest.java:94-97 | findByEmail finds nothing exactly when no stored row has that e-mail; what it finds is a stored row with that e-mail |
| `Usuarios.ObterPorEmailUnico` | src/test/java/com/dreis/minhasfinancas/service/UsuarioServiceTest.java:80-84 | in a store without duplicate e-mails, findByEmail returns the one row that has the e-mail |
| `Usuarios.Autenticar` | src/test/java/com/dreis/minhasfinancas/service/UsuarioServiceTest.java:90-102 | fails with "Usuário não encontrado para o email informado." iff no stored user has the e-mail; every failure is an authentication error; a success returns a stored user with that e-mail and password |
| `Usuarios.AutenticarSucesso` | src/test/java/com/dreis/minhasfinancas/service/UsuarioServiceTest.java:73-88 | a stored user logging in with the stored password gets that stored user back |
| `Usuarios.AutenticarSenhaInvalida` | src/test/java/com/dreis/minhasfinancas/service/UsuarioServiceTest.java:109-125 | a stored user logging in with a different password fails with the authentication error "Senha inválida." |
| `Usuarios.ValidarEmail` | src/test/java/com/dreis/minhasfinancas/service/UsuarioServiceTest.java:128-146 | passes iff no stored user has the e-mail; otherwise fails with a business-rule error |
| `Usuarios.Persistido` | src/test/java/com/dreis/minhasfinancas/service/UsuarioServiceTest.java:44-47 | the saved record is in the store afterwards; every other row with another id is kept, and nothing else is added |
| `Usuarios.PersistidoPreservaEmails` | src/test/java/com/dreis/minhasfinancas/service/UsuarioServiceTest.java:57-71 | saving a user whose e-mail is not yet stored keeps the e-mails distinct and the ids distinct |
| `Usuarios.UsuarioService.SalvarUsuario` | src/test/java/com/dreis/minhasfinancas/service/UsuarioServiceTest.java:34-71 | when validarEmail fails, the business-rule error comes back and the store is not written; when it passes, the user is saved and the saved record, now with an id, is returned; the store invariant holds afterwards |
| `Usuarios.RegistradoAutentica` | src/test/java/com/dreis/minhasfinancas/service/UsuarioServiceTest.java:34-88 | a user just saved through the guard can authenticate with the saved e-mail and password and gets the saved record back |

## Left out

- `buscar` (filtered search) is not modelled. It delegates to a query-by-example with case-insensitive substring matching, and the case folding it relies on belongs to a foreign library.
- Transactions, constructor injection of the repository and the test double scaffolding are framework infrastructure. The store is a field of each service class.
- The repository interfaces and the database queries behind `existsByEmail`, `findByEmail` and `save` are not modelled. The model has an abstract store in their place.
- The implementation class of the user service is not part of this model. Its behaviour comes from the test's assertions. Two choices follow from that:
  - A stored user whose password is null never authenticates, and the attempt is reported as "Senha inválida.".
  - `existsByEmail` treats a null e-mail as equal to a null e-mail.
- Usuarios.ValidarEmail: the message "Já existe um usuário cadastrado com este email." is assumed; the test asserts only the kind of the error.
- Usuarios.Autenticar: the model takes non-null e-mail and password arguments, as every test does. A null argument is not modelled.
- A check-then-save race in registration can admit duplicate e-mails under concurrent calls. The model is sequential, so it cannot show this.
- Password hashing is not modelled. The observed contract is plain equality of the stored password.
- Ids are unbounded integers, so the 64-bit width of `Long` is not modelled. The store hands out ids greater than every id it holds.
- When the store saves a record that carries an id, it writes under that id. A JPA merge of an id that the database does not know would instead generate a new id.
- PENDENTE is the only status the entry service names. The other statuses (CANCELADO, EFETIVADO) and the entry types (RECEITA, DESPESA) are assumed closed enumerations. Validation tests only that a type is present.
