# minhasfinancas — ledger entries, modelled in Dafny

A model of the core of "minhas finanças", a personal-finance ledger. Users
register and authenticate. They record entries (`Lancamento`): income
(`RECEITA`) or expense (`DESPESA`), tagged by description, month, year,
value and status (`PENDENTE`, `EFETIVADO`, `CANCELADO`). The system reports
a balance per user.

The model is organised like the program:

- `Model` (model.dfy) holds the entities `Usuario` and `Lancamento`. A
  nullable Java field is an `Option`, and `BigDecimal` is `real` (exact).
  It also holds the two enumerations with their `valueOf`, the exceptions
  and their messages.
- `Validation` (validation.dfy) is `validar`, the fail-fast chain of six
  checks.
- `Tables` (tables.dfy) is what a `JpaRepository` with an identity column
  keeps: rows in storage order plus the id generator. It provides `save`
  (a fresh id, or an overwrite of a stored id), `delete`, `findById`, and
  filters. `WellFormed` is the invariant: positive ids, strictly
  increasing, all below the generator.
- `Balance` (balance.dfy) is the repository's aggregate query: the per-user,
  per-type `sum(valor)`, null when nothing is summed. It also holds the
  balance built from two such sums.
- `Repositories` (repositories.dfy) has the class `Repository`. Its
  `Save` and `Delete` update its rows in place and append to a ghost log
  of calls; that log is what the tests check with Mockito
  `verify(never()/times(1))`. The module also has per-entity `save`,
  query by example, `existsByEmail` and `findByEmail`.
- `LancamentoService` and `UsuarioService` (services.dfy) give each service
  operation as a function of the table. It returns the table afterwards
  and the value returned or the exception thrown.
- `ServiceImpl` (serviceimpl.dfy) has the classes `LancamentoServiceImpl`
  and `UsuarioServiceImpl` over repository objects. Each method is proved
  to return what its service function, or the repository query it
  forwards to, returns on the repository's state. Each method that changes
  state also states which calls reached the call log.
- `Responses`, `LancamentoController` and `UsuarioController`
  (responses.dfy, lancamento_controller.dfy, usuario_controller.dfy) model
  the endpoints as functions. Each returns a (status code, body) response,
  or the exception that escapes the handler.

`LancamentoServiceImpl` and `UsuarioServiceImpl` are reconstructed from
`LancamentoServiceTest`, `UsuarioServiceTest`, `UsuarioService.java`, the
repository interfaces and the controllers' calls. `LancamentoService.java`
and the implementation classes (`LancamentoServiceImpl.java`,
`UsuarioServiceImpl.java`) are not part of this model. The choices the
tests leave open are listed under "## Left out".

## Model

| member | source | states |
|---|---|---|
| Model.Message | src/test/java/com/humberto789/minhasfinancas/service/LancamentoServiceTest.java:196-291 | `getMessage()` of a business-rule or authentication exception: a non-empty text, one per failed check or rule (the texts of the tests, and of LancamentoController.java:118 for an unknown user). |
| Model.MessageDeterminesFailure | src/test/java/com/humberto789/minhasfinancas/service/LancamentoServiceTest.java:196-291 | Two exceptions with the same message are the same exception, so a 400 body names exactly which check or rule failed. |
| Model.TipoValueOf | src/main/java/com/humberto789/minhasfinancas/controller/resource/LancamentoController.java:122-124 | `TipoLancamento.valueOf`: exactly the constant's name yields the constant. A null name throws NullPointerException; any other name throws IllegalArgumentException. |
| Model.StatusValueOf | src/main/java/com/humberto789/minhasfinancas/controller/resource/LancamentoController.java:92 | `StatusLancamento.valueOf`, with the same exceptions; it never yields null. |
| Validation.Validar | src/test/java/com/humberto789/minhasfinancas/service/LancamentoServiceTest.java:187-298 | An entry passes if and only if all six checks pass. A failure names a check that fails, and every earlier check (description, month, year, user with id, value, type) passes. |
| Validation.ValidarProgression | src/test/java/com/humberto789/minhasfinancas/service/LancamentoServiceTest.java:187-298 | The test's progression, step by step. A null, empty or blank description, month null/0/13, year null/10, no user or a user without an id, value null/-1 and no type are each refused by their own check. The filled entry without a status passes. |
| Validation.ValidarIgnoresIdDateAndStatus | src/test/java/com/humberto789/minhasfinancas/service/LancamentoServiceTest.java:293-297 | Validation does not depend on id, registration date or status. |
| Tables.IndexOf | src/test/java/com/humberto789/minhasfinancas/model/repository/LancamentoRepositoryTest.java:78-86 | The first position holding an id; none exactly when no row holds it. |
| Tables.FindById | src/test/java/com/humberto789/minhasfinancas/model/repository/LancamentoRepositoryTest.java:78-86 | `findById`: a stored row with that id; empty exactly when no row has it. |
| Tables.FindAt | src/test/java/com/humberto789/minhasfinancas/model/repository/LancamentoRepositoryTest.java:78-86 | In a well-formed table every stored row is what `findById` of its id returns. |
| Tables.AssignedId | src/test/java/com/humberto789/minhasfinancas/model/repository/LancamentoRepositoryTest.java:62-76 | A stored id is kept (overwrite); an absent or unknown id gets the generator's next value. |
| Tables.Put | src/test/java/com/humberto789/minhasfinancas/model/repository/LancamentoRepositoryTest.java:62-76 | Storing either keeps the number of rows (overwrite) or appends the row. |
| Tables.PutFound | src/test/java/com/humberto789/minhasfinancas/model/repository/LancamentoRepositoryTest.java:62-76 | Storing under a stored id or a fresh one keeps the table well formed. The row is found by its id, and every other id finds what it found before. |
| Tables.Save | src/test/java/com/humberto789/minhasfinancas/model/repository/LancamentoRepositoryTest.java:32-46 | `save`: the saved entity has an id. A new one gets the generator's value and is appended; a stored id is kept, with the same number of rows. |
| Tables.SaveFound | src/test/java/com/humberto789/minhasfinancas/model/repository/LancamentoRepositoryTest.java:32-46 | After `save` the table is well formed and the saved entity has a positive id and is found under it. Every other id is unaffected. |
| Tables.SaveAt | src/test/java/com/humberto789/minhasfinancas/model/repository/LancamentoRepositoryTest.java:62-76 | `save` changes one position only: either the overwritten row (same id) or a new last one. |
| Tables.DeleteById | src/test/java/com/humberto789/minhasfinancas/model/repository/LancamentoRepositoryTest.java:48-59 | Deleting never adds rows and never resets the generator. |
| Tables.RemoveAt | src/test/java/com/humberto789/minhasfinancas/model/repository/LancamentoRepositoryTest.java:48-59 | Removing one row keeps the table well formed and the order of the remaining rows. |
| Tables.RemoveFound | src/test/java/com/humberto789/minhasfinancas/model/repository/LancamentoRepositoryTest.java:48-59 | Removing the row at one position leaves its id finding nothing, every other id finding what it found before, and the table well formed. |
| Tables.DeleteFound | src/test/java/com/humberto789/minhasfinancas/model/repository/LancamentoRepositoryTest.java:48-59 | After deleting an id it finds nothing, every other id finds what it found before, and the table stays well formed. |
| Tables.Delete | src/test/java/com/humberto789/minhasfinancas/model/repository/LancamentoRepositoryTest.java:54 | `delete(entity)`: an entity without an id changes nothing; the generator is kept. |
| Tables.Filter | src/test/java/com/humberto789/minhasfinancas/service/LancamentoServiceTest.java:125-139 | Exactly the rows satisfying the predicate, all taken from the table, and no more rows than the table has. |
| Tables.FilterCount | src/test/java/com/humberto789/minhasfinancas/service/LancamentoServiceTest.java:125-139 | Every row satisfying the predicate is kept as many times as it occurs, and no other row is kept. |
| Tables.FilterAppend | src/test/java/com/humberto789/minhasfinancas/service/LancamentoServiceTest.java:125-139 | Storage order is kept: a row appended to the table is appended to the result exactly when it satisfies the predicate. |
| Tables.First | src/main/java/com/humberto789/minhasfinancas/model/repository/UsuarioRepository.java:12 | A row satisfying the predicate; none exactly when no row does. |
| Balance.Soma | src/main/java/com/humberto789/minhasfinancas/model/repository/LancamentoRepository.java:16-19 | The sum query is null exactly when no selected entry (this user's id, this type) has a value. Otherwise it is the sum of those values. |
| Balance.SomaAppend | src/main/java/com/humberto789/minhasfinancas/model/repository/LancamentoRepository.java:16 | Adding a selected entry with a value raises the sum by that value, a null sum counting as zero. Any other entry leaves the sum unchanged. |
| Balance.SomaOnlySelected | src/main/java/com/humberto789/minhasfinancas/model/repository/LancamentoRepository.java:16-17 | Only entries of that user id and that type count: dropping all others leaves the sum unchanged. |
| Balance.OnlySelected | src/main/java/com/humberto789/minhasfinancas/model/repository/LancamentoRepository.java:17 | The join and `where` clause keep exactly the entries of the user and type: every kept entry is selected, every selected entry is kept, each as often as it occurs. |
| Balance.SomaIgnoresStatus | src/main/java/com/humberto789/minhasfinancas/model/repository/LancamentoRepository.java:16-18 | Changing any entry's status never changes the sum. |
| Balance.Saldo | src/main/java/com/humberto789/minhasfinancas/controller/resource/UsuarioController.java:60 | The balance is the income sum minus the expense sum, each sum taken over the non-null values. |
| Balance.SaldoExample | src/main/java/com/humberto789/minhasfinancas/model/repository/LancamentoRepository.java:16-19 | Income 100 and expense 30 for user 1, plus another user's income, give balance 70. A user without entries has a null sum and balance 0. |
| Repositories.Repository.constructor | src/test/java/com/humberto789/minhasfinancas/model/repository/UsuarioRepositoryTest.java:41-47 | A new repository is empty and well formed, its generator starts at 1, and it has logged no calls. |
| Repositories.Repository.Save | src/test/java/com/humberto789/minhasfinancas/model/repository/LancamentoRepositoryTest.java:32-46 | The in-place `save` leaves exactly the table and entity that `Tables.Save` gives. It keeps the table well formed and logs one save call. |
| Repositories.Repository.Delete | src/test/java/com/humberto789/minhasfinancas/model/repository/LancamentoRepositoryTest.java:48-59 | The in-place `delete` leaves exactly the table `Tables.Delete` gives, keeps it well formed and logs one delete call. |
| Repositories.SaveLancamento | src/test/java/com/humberto789/minhasfinancas/model/repository/LancamentoRepositoryTest.java:32-46 | A saved entry has an id and every other field as given (year, month, description, value, type, status, date). A new entry gets the next id; a stored id is kept. |
| Repositories.SaveUsuario | src/test/java/com/humberto789/minhasfinancas/model/repository/UsuarioRepositoryTest.java:49-56 | A saved user has a non-null id and its other fields as given. |
| Repositories.FindAll | src/test/java/com/humberto789/minhasfinancas/service/LancamentoServiceTest.java:125-139 | `findAll(Example)`: exactly the stored entries whose fields equal every non-null field of the probe, each as often as it is stored. |
| Repositories.ExistsByEmail | src/main/java/com/humberto789/minhasfinancas/model/repository/UsuarioRepository.java:10 | True exactly when a stored user has that email. |
| Repositories.FindByEmail | src/main/java/com/humberto789/minhasfinancas/model/repository/UsuarioRepository.java:12 | A stored user with that email; empty exactly when none has it. |
| Repositories.SavedUsuarioFound | src/test/java/com/humberto789/minhasfinancas/model/repository/UsuarioRepositoryTest.java:30-73 | After saving a user: it has a positive id, is found by it, and `existsByEmail` and `findByEmail` of its email succeed. |
| Repositories.SavedLancamentoFound | src/test/java/com/humberto789/minhasfinancas/model/repository/LancamentoRepositoryTest.java:32-86 | A saved entry is found by its id with every other field as given. Re-saving a stored entry after setters overwrites that row under the same id, with no row added. |
| Repositories.DeletedLancamentoGone | src/test/java/com/humberto789/minhasfinancas/model/repository/LancamentoRepositoryTest.java:48-59 | After deleting a stored entry its id finds nothing; other ids are unaffected. |
| LancamentoService.Salvar | src/test/java/com/humberto789/minhasfinancas/service/LancamentoServiceTest.java:37-63 | Succeeds exactly when validation passes. The result has an id, status PENDENTE and the other fields as given. On failure the validation error propagates and the table is unchanged. |
| LancamentoService.Atualizar | src/test/java/com/humberto789/minhasfinancas/service/LancamentoServiceTest.java:65-102 | An id-less entry throws NullPointerException and nothing is saved, whatever else is wrong with it. With an id it is validated; a failure propagates without saving. Success keeps every field and overwrites a stored row under its id. |
| LancamentoService.Deletar | src/test/java/com/humberto789/minhasfinancas/service/LancamentoServiceTest.java:104-123 | Succeeds exactly when the entry has an id, and then removes that id's row. A missing id throws NullPointerException and removes nothing. |
| LancamentoService.AtualizarStatus | src/test/java/com/humberto789/minhasfinancas/service/LancamentoServiceTest.java:141-157 | The caller's entry ends with the new status and is what `atualizar` receives; a success carries that status. |
| LancamentoService.ObterSaldoPorUsuario | src/main/java/com/humberto789/minhasfinancas/controller/resource/UsuarioController.java:60 | The user's income values summed minus the expense values summed. |
| LancamentoService.SalvarStores | src/test/java/com/humberto789/minhasfinancas/service/LancamentoServiceTest.java:37-51 | A successful `salvar` keeps the table well formed, and the entry is found under its new id; other ids are unaffected. |
| LancamentoService.SalvarRaisesSoma | src/main/java/com/humberto789/minhasfinancas/model/repository/LancamentoRepository.java:16 | A new entry saved by `salvar` raises its own user's and type's sum by its value and changes no other sum. |
| LancamentoService.AtualizarStores | src/test/java/com/humberto789/minhasfinancas/service/LancamentoServiceTest.java:65-77 | A successful `atualizar` keeps the table well formed, and the entry is found under its id; other ids are unaffected. |
| LancamentoService.DeletarRemoves | src/test/java/com/humberto789/minhasfinancas/service/LancamentoServiceTest.java:104-112 | A successful `deletar` keeps the table well formed. The id then finds nothing, and other ids are unaffected. |
| LancamentoService.AtualizarStatusKeepsSaldo | src/test/java/com/humberto789/minhasfinancas/service/LancamentoServiceTest.java:141-157 | Changing the status of a stored entry stores it with the new status and adds no row. No sum or balance changes. |
| UsuarioService.ValidarEmail | src/test/java/com/humberto789/minhasfinancas/service/UsuarioServiceTest.java:30-48 | Succeeds exactly when no stored user has the email; otherwise throws the business-rule error. |
| UsuarioService.Autenticar | src/test/java/com/humberto789/minhasfinancas/service/UsuarioServiceTest.java:50-86 | Success returns a stored user with exactly that email and password. "Not found" is thrown exactly when no user has the email. "Invalid password" is thrown exactly when the found user's password differs. |
| UsuarioService.SalvarUsuario | src/test/java/com/humberto789/minhasfinancas/service/UsuarioServiceTest.java:88-121 | Succeeds exactly when the email is free. The saved user has an id and the given name, email and password. On a taken email the error propagates and the table is unchanged. |
| UsuarioService.SalvarUsuarioKeepsEmailsUnicos | src/test/java/com/humberto789/minhasfinancas/service/UsuarioServiceTest.java:88-121 | `salvarUsuario` keeps emails unique. The new user is the one `findByEmail` then finds and `autenticar` then accepts. |
| ServiceImpl.LancamentoServiceImpl.Salvar | src/test/java/com/humberto789/minhasfinancas/service/LancamentoServiceTest.java:37-63 | Does what `LancamentoService.Salvar` says. On failure `save` is never called; on success it is called once, with the PENDENTE entry. |
| ServiceImpl.LancamentoServiceImpl.Atualizar | src/test/java/com/humberto789/minhasfinancas/service/LancamentoServiceTest.java:65-102 | Does what `LancamentoService.Atualizar` says. Missing id or failed validation: `save` never called; otherwise called once. |
| ServiceImpl.LancamentoServiceImpl.Deletar | src/test/java/com/humberto789/minhasfinancas/service/LancamentoServiceTest.java:104-123 | Does what `LancamentoService.Deletar` says; `delete` is called once with an id and never without. |
| ServiceImpl.LancamentoServiceImpl.AtualizarStatus | src/test/java/com/humberto789/minhasfinancas/service/LancamentoServiceTest.java:141-157 | Returns the caller's entry with the new status. The update that follows is `atualizar` of exactly that entry, saving it once or not at all. |
| ServiceImpl.LancamentoServiceImpl.Buscar | src/test/java/com/humberto789/minhasfinancas/service/LancamentoServiceTest.java:125-139 | The list is the repository's `findAll` list for the filter, so exactly the matching entries in storage order. |
| ServiceImpl.LancamentoServiceImpl.ObterPorId | src/test/java/com/humberto789/minhasfinancas/service/LancamentoServiceTest.java:159-185 | Is the repository's `findById`: present exactly when the repository holds the id, and then that entry. |
| ServiceImpl.LancamentoServiceImpl.ObterSaldoPorUsuario | src/main/java/com/humberto789/minhasfinancas/controller/resource/UsuarioController.java:60 | The two sum queries, null as zero, income minus expense: the user's balance. |
| ServiceImpl.UsuarioServiceImpl.ValidarEmail | src/test/java/com/humberto789/minhasfinancas/service/UsuarioServiceTest.java:30-48 | Succeeds exactly when no stored user has the email. |
| ServiceImpl.UsuarioServiceImpl.Autenticar | src/test/java/com/humberto789/minhasfinancas/service/UsuarioServiceTest.java:50-86 | Does what `UsuarioService.Autenticar` says: a stored user with that email and exactly that password. |
| ServiceImpl.UsuarioServiceImpl.SalvarUsuario | src/test/java/com/humberto789/minhasfinancas/service/UsuarioServiceTest.java:88-121 | Does what `UsuarioService.SalvarUsuario` says. A taken email means `save` is never called; otherwise it is called once. |
| ServiceImpl.UsuarioServiceImpl.ObterPorId | src/main/java/com/humberto789/minhasfinancas/service/UsuarioService.java:15 | Is the repository's `findById`: present exactly when the repository holds the id, and then that user. |
| LancamentoController.TipoOpcional | src/main/java/com/humberto789/minhasfinancas/controller/resource/LancamentoController.java:122-124 | A null type name leaves the type null; any other name goes through `valueOf` and may throw IllegalArgumentException. |
| LancamentoController.StatusOpcional | src/main/java/com/humberto789/minhasfinancas/controller/resource/LancamentoController.java:126-128 | The same for the status. |
| LancamentoController.Converter | src/main/java/com/humberto789/minhasfinancas/controller/resource/LancamentoController.java:107-131 | Succeeds exactly when the user id is given and stored and both names parse. It copies id, description, year, month and value, and takes the stored user; type and status are set only from non-null names; the date is null. An unknown user throws the business-rule error, a null user id IllegalArgumentException. |
| LancamentoController.Salvar | src/main/java/com/humberto789/minhasfinancas/controller/resource/LancamentoController.java:28-38 | 201 exactly when conversion and validation succeed, with the saved PENDENTE entry as body. An unknown user or a failed check gives 400 with its message, which is the `catch` clause (`Catch`, `BadRequest`); an IllegalArgumentException from conversion escapes. Anything but 201 stores nothing. |
| LancamentoController.Atualizar | src/main/java/com/humberto789/minhasfinancas/controller/resource/LancamentoController.java:40-54 | An unknown id answers 400 "not found" and changes nothing. 200 happens exactly when the id is stored and conversion and validation succeed; its body is the converted entry carrying the stored id. For a stored id, an unknown user or a failed check answers 400 with the exception's message (the `catch` clause), and an IllegalArgumentException from conversion escapes. |
| LancamentoController.Deletar | src/main/java/com/humberto789/minhasfinancas/controller/resource/LancamentoController.java:56-62 | 204 exactly when the id is stored, and then that row is removed. Otherwise 400 "not found" and nothing changes. |
| LancamentoController.Buscar | src/main/java/com/humberto789/minhasfinancas/controller/resource/LancamentoController.java:64-87 | An unknown user answers 400 without searching. Otherwise 200 lists stored entries of that user whose description, month and year equal the given ones, and it lists every entry matching the filter, as often as it is stored. |
| LancamentoController.AtualizarStatus | src/main/java/com/humberto789/minhasfinancas/controller/resource/LancamentoController.java:89-105 | An unknown id gives 400 "not found". A null or unknown status name throws past the handler. 200 happens exactly when the stored entry passes validation, and its body is the stored entry with only its status replaced. A stored entry failing validation answers 400 with the failed check's message (the `catch` clause). |
| LancamentoController.SalvarStores | src/main/java/com/humberto789/minhasfinancas/controller/resource/LancamentoController.java:28-38 | After a 201 the answered entry is stored under its id, and the table stays well formed. |
| LancamentoController.AtualizarOverwrites | src/main/java/com/humberto789/minhasfinancas/controller/resource/LancamentoController.java:40-54 | After a 200 the row of that id is the answered entry, no row is added or removed, and other ids are unaffected. |
| LancamentoController.DeletarRemoves | src/main/java/com/humberto789/minhasfinancas/controller/resource/LancamentoController.java:56-62 | After the call the id finds nothing, and other ids are unaffected. |
| LancamentoController.AtualizarStatusKeepsSaldo | src/main/java/com/humberto789/minhasfinancas/controller/resource/LancamentoController.java:89-105 | After a 200 the stored entry is the answered one, and no user's balance has changed. |
| UsuarioController.Salvar | src/main/java/com/humberto789/minhasfinancas/controller/resource/UsuarioController.java:26-39 | 201 exactly when the email is free, with the user built from the DTO's name, email and password plus the new id. Otherwise 400 "email taken" (`BadRequest` of the business-rule exception) and nothing stored. |
| UsuarioController.Autenticar | src/main/java/com/humberto789/minhasfinancas/controller/resource/UsuarioController.java:41-49 | 200 with the stored user exactly when authentication succeeds. Otherwise 400 (`BadRequest` of the authentication exception) with the "not found" or the "invalid password" message. |
| UsuarioController.ObterSaldo | src/main/java/com/humberto789/minhasfinancas/controller/resource/UsuarioController.java:51-62 | 404 without a body exactly when the user is unknown. Otherwise 200 with exactly the service's balance for that id. |
| UsuarioController.SalvarThenAutenticar | src/main/java/com/humberto789/minhasfinancas/controller/resource/UsuarioController.java:26-49 | After a 201, authenticating with the same email and password answers 200 with that user, and registering the same email again answers 400. |

## Left out

- `LancamentoServiceImpl.java` and `UsuarioServiceImpl.java` are not part of this model. Behaviour the service tests leave open is chosen as follows:
  - A year must have four digits (1000 to 9999). The tests pin only that year 10 is refused and 2023 accepted.
  - A value must be strictly positive; zero is refused.
  - A description is blank when every character is at most U+0020, as Java's `trim` strips.
  - `salvar` always sets PENDENTE. The entry the test saves (`criarLancamento`, LancamentoRepositoryTest.java:100) already carries PENDENTE, so the test cannot tell "always PENDENTE" from "PENDENTE when absent" or from "the status as given".
  - `atualizar` and `deletar` check for a missing id before validating. The test at LancamentoServiceTest.java:79-88 passes an entry without a user and expects NullPointerException.
  - The six validation messages and the two authentication messages are the texts the tests give as intent (LancamentoServiceTest.java:196-291, UsuarioServiceTest.java:72 and 85). The unknown-user message is the controller's own (LancamentoController.java:118).
  - Model.Message: the email-taken text "Já existe um usuário cadastrado com este email." is a chosen text; no test or source file states the message of `validarEmail`'s exception.
- UsuarioService.Autenticar: the stored password and the given one are compared as nullable values, so a stored user with a null password and a non-null given password gets "Senha inválida", and two null passwords authenticate. A Java `getSenha().equals(senha)` would throw NullPointerException on a null stored password; that is not modelled.
- Balance.Saldo: how the two sums form a balance (income minus expense, a null sum as zero) is an assumption; `obterSaldoPorUsuario` is known only from its call at UsuarioController.java:60 and from the two sum queries at LancamentoRepository.java:16-19. The expense constant is assumed to be `DESPESA`.
- Tables.Save: an entity carrying an id that no row holds is stored under a fresh id, as a JPA merge inserts it. Some Hibernate versions throw instead; that is not modelled.
- Repositories.FindByEmail: with two users sharing an email it returns the first, where Spring Data would throw. `SalvarUsuarioKeepsEmailsUnicos` shows this situation never arises through `salvarUsuario`.
- Repositories.FindAll: query by example is exact equality on every non-null probe field, nested for the user. Matcher options (ignore case, containing) are not modelled.
- LancamentoController.Converter: a null user id makes `findById` throw. It is modelled as IllegalArgumentException; Spring wraps it in its own exception type, which the handler does not catch either way.
- LancamentoController.AtualizarStatus: the `statusSelecionado == null` branch is not modelled, because `valueOf` never returns null.
- The entry's in-place field setting is modelled by value. This covers the converter's setters, `setId` in `atualizar`, and `setStatus` in `atualizarStatus` (test line 154). The mutated caller entity is returned (`updated`). A setting on an entity fetched through JPA that is not later saved is not modelled.
- A stored entry holds a copy of its user; users are never updated in this core, so sharing does not matter.
- HTTP routing, JSON serialization (including `@JsonIgnore` on the password) and MockMvc are out of scope. A response is a status code and a body.
- Mockito spies and mocks are out of scope; the repository's ghost call log stands in for `verify(never()/times(1))`.
- `LocalDate.now()` is a clock read, so the registration date is an opaque number, never computed.
- Transactions, concurrency, password hashing and rate limiting are out of scope; the code has none of the last two.
- Java `Long` and `Integer` widths are not modelled: ids, months and years are unbounded integers; nothing in the core is near overflow.
