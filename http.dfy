/** What a handler writes to the client: a status code and a JSON body. */
module Http {
  import opened Session

  datatype Body =
    | ErrorBody(error: string)               // { success: false, error }
    | RegisteredBody(registered: Registered) // the result of `register`, as is
    | LoggedInBody(loggedIn: LoggedIn)       // the result of `login`, as is
    | TokensBody(tokens: TokenPair)          // the result of `refreshToken`, as is
    | LogoutBody(message: string)            // { success: true, message }
    | UserBody(user: Profile)                // { user }

  datatype Reply = Reply(status: nat, body: Body)
}
