/** The `{ message }` replies the route handlers send with `res.status(..).json(..)`. */
module Http {

  datatype Reply = Reply(status: nat, message: string)
}
