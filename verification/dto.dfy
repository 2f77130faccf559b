/** Request and response shapes of the HTTP API (package `dto`). */
module Dto {
  import opened Wrappers
  import opened Go

  datatype RegisterRequest = RegisterRequest(name: string, email: string, password: string)
  datatype RegisterResponse = RegisterResponse(id: string, name: string, email: string, accessToken: string)

  datatype LoginRequest = LoginRequest(email: string, password: string)
  datatype LoginResponse = LoginResponse(id: string, name: string, email: string, accessToken: string)

  /** `dto.UserLoginResponse{}`. */
  const EmptyLoginResponse: LoginResponse := LoginResponse("", "", "", "")

  datatype ListRequest = ListRequest(page: Int64, limit: Int64)
  datatype ListItem = ListItem(id: string, name: string, email: string)
  /** `users` is `None` for a nil slice, which JSON encodes as `null`. */
  datatype ListResponse = ListResponse(users: Option<seq<ListItem>>, page: Int64)

  datatype UpdateRequest = UpdateRequest(name: string, email: string)
  datatype UpdateResponse = UpdateResponse(id: string, name: string, email: string)

  datatype GetMeResponse = GetMeResponse(id: string, name: string, email: string)
}
