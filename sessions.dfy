/** `request.session`: the signed cookie of Starlette's session middleware, a dict the handlers read and write
    in place. */
module Sessions {
  import opened Json
  import Enums

  /** Only `login` writes the user's name, and it always writes a string. */
  predicate SessionWellFormed(data: map<string, Value>) {
    Enums.SessionUserName in data ==> data[Enums.SessionUserName].Str?
  }

  class Session {
    var data: map<string, Value>

    predicate Valid()
      reads this
    {
      SessionWellFormed(data)
    }

    /** The session of a request that carries no cookie. */
    constructor ()
      ensures Valid() && data == map[]
    {
      data := map[];
    }
  }
}
