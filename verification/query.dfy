/**
 * Request parameters that carry a document id (`req.query.id`, `req.params.id`).
 *
 * A handler sees one of three things:
 * - `NoId`: the parameter is absent. The account handlers test `!id`, so for them the empty
 *   string is `NoId` too.
 * - `BadId`: a string that is not a valid ObjectId, on which the store driver throws a
 *   CastError. The snippet handlers pass the parameter straight to the store, so for them the
 *   empty string is `BadId`.
 * - `Id(n)`: a well-formed id. Ids themselves are modelled as naturals.
 */
module Query {

  datatype IdArg = NoId | BadId | Id(id: nat)
}
