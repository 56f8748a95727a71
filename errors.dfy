/** The service's typed failures: a status kind plus a message
    (UserManagementException.java). */
module Errors {

  /** The three HTTP statuses the exception is ever built with. */
  datatype Status = NotFound | BadRequest | Conflict {

    /** The numeric code the status carries (sections 15.5.1, 15.5.5 and 15.5.10 of RFC 9110). */
    function Code(): (c: nat)
      ensures 400 <= c < 500
      ensures c == 404 <==> this == NotFound
      ensures c == 400 <==> this == BadRequest
      ensures c == 409 <==> this == Conflict
    {
      match this
      case NotFound => 404
      case BadRequest => 400
      case Conflict => 409
    }
  }

  /** An exception value: the message is kept as supplied and the status is fixed when it
      is built; neither can change afterwards. */
  datatype UserManagementException = UserManagementException(message: string, status: Status) {

    static function NotFound(message: string): (e: UserManagementException)
      ensures e.status == Status.NotFound && e.message == message
    {
      UserManagementException(message, Status.NotFound)
    }

    static function BadRequest(message: string): (e: UserManagementException)
      ensures e.status == Status.BadRequest && e.message == message
    {
      UserManagementException(message, Status.BadRequest)
    }

    static function Conflict(message: string): (e: UserManagementException)
      ensures e.status == Status.Conflict && e.message == message
    {
      UserManagementException(message, Status.Conflict)
    }
  }

  /** The factories never produce the same exception, whatever the messages, so a caller can
      always tell the kinds apart; and each factory is injective in its message. */
  lemma FactoriesDistinguishable(m1: string, m2: string)
    ensures UserManagementException.NotFound(m1) != UserManagementException.Conflict(m2)
    ensures UserManagementException.NotFound(m1) != UserManagementException.BadRequest(m2)
    ensures UserManagementException.BadRequest(m1) != UserManagementException.Conflict(m2)
    ensures UserManagementException.NotFound(m1) == UserManagementException.NotFound(m2) <==> m1 == m2
    ensures UserManagementException.Conflict(m1) == UserManagementException.Conflict(m2) <==> m1 == m2
    ensures UserManagementException.BadRequest(m1) == UserManagementException.BadRequest(m2) <==> m1 == m2
  {
  }
}
