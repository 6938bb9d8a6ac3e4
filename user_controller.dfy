/**
 * The user controller: each handler awaits one service call and picks the
 * response status and JSON body from what that call settled to. A handler
 * whose service call throws produces no response; the error propagates.
 */
module UserController {
  import opened Values
  import opened UserStore

  const NotFoundMessage := "Usuário não encontrado"
  const UpdateFailedMessage := "Erro ao atualizar usuário"
  const DeleteFailedMessage := "Erro ao excluir usuário"

  datatype Body = UserJson(doc: Doc) | UserListJson(docs: seq<Doc>) | ErrorJson(error: string) | NoBody

  datatype Response = Response(status: int, body: Body)

  /** A handler either sends a response or lets the service's error propagate. */
  datatype Handled = Sent(response: Response) | Raised(message: string)

  /** `createUser`: 201 with the created user; a service error propagates unanswered. */
  function CreateUser(outcome: Reply<Doc>): (h: Handled)
    ensures h.Sent? <==> outcome.Ok?
    ensures outcome.Ok? ==> h.response == Response(201, UserJson(outcome.value))
    ensures outcome.Threw? ==> h.message == outcome.message
  {
    match outcome
    case Ok(user) => Sent(Response(201, UserJson(user)))
    case Threw(m) => Raised(m)
  }

  /** `getAllUsers`: always 200 with the service's list. */
  function GetAllUsers(users: seq<Doc>): (h: Handled)
    ensures h.Sent? && h.response.status == 200 && h.response.body.UserListJson?
    ensures h.response.body.docs == users
  {
    Sent(Response(200, UserListJson(users)))
  }

  /** `getUserById`: 404 exactly when the service returns null, otherwise 200 with the user. */
  function GetUserById(user: Option<Doc>): (h: Handled)
    ensures h.Sent?
    ensures h.response.status == 404 <==> user.None?
    ensures user.None? ==> h.response.body == ErrorJson(NotFoundMessage)
    ensures user.Some? ==> h.response == Response(200, UserJson(user.value))
  {
    if user.None? then Sent(Response(404, ErrorJson(NotFoundMessage)))
    else Sent(Response(200, UserJson(user.value)))
  }

  /** `updateUser`: 400 exactly when the service returns null, otherwise 200 with the updated user. */
  function UpdateUser(user: Option<Doc>): (h: Handled)
    ensures h.Sent?
    ensures h.response.status == 400 <==> user.None?
    ensures user.None? ==> h.response.body == ErrorJson(UpdateFailedMessage)
    ensures user.Some? ==> h.response == Response(200, UserJson(user.value))
  {
    if user.None? then Sent(Response(400, ErrorJson(UpdateFailedMessage)))
    else Sent(Response(200, UserJson(user.value)))
  }

  /** `deleteUser`: 400 exactly when the service returns false, otherwise 204 with an empty body. */
  function DeleteUser(deleted: bool): (h: Handled)
    ensures h.Sent?
    ensures h.response.status == 400 <==> !deleted
    ensures !deleted ==> h.response.body == ErrorJson(DeleteFailedMessage)
    ensures deleted ==> h.response == Response(204, NoBody)
  {
    if !deleted then Sent(Response(400, ErrorJson(DeleteFailedMessage)))
    else Sent(Response(204, NoBody))
  }
}
