/** The `users` record and the accessors the authentication layer uses on it
    (app/Models/User.php). */
module Users {
  import opened Common

  /** The keys a request may mass-assign on a user. */
  const Fillable: set<string> := {"username", "password", "name"}

  /** The part of request data that mass assignment lets through: exactly the
      fillable keys that the data holds, with their values. */
  function MassAssignable(attributes: map<string, string>): (m: map<string, string>)
    ensures m.Keys == attributes.Keys * Fillable
    ensures forall k :: k in m ==> m[k] == attributes[k]
  {
    map k | k in attributes && k in Fillable :: attributes[k]
  }

  /** Request data can never reach the key or the session token of a user. */
  lemma MassAssignmentGuardsTokenAndId(attributes: map<string, string>)
    ensures "token" !in MassAssignable(attributes)
    ensures "id" !in MassAssignable(attributes)
    ensures MassAssignable(attributes).Keys <= {"username", "password", "name"}
  {
  }

  /** The string columns of `users`; `id` is the integer key. */
  const StringColumns: set<string> := {"username", "password", "name", "token"}

  /** One row of the `users` table. The password is the stored hash; the
      token is the session token, NULL until the user logs in. */
  class User {
    var id: nat
    var username: string
    var password: string
    var name: string
    var token: Option<string>

    /** A user as loaded from the table. */
    constructor (id: nat, username: string, password: string, name: string, token: Option<string>)
      ensures this.id == id && this.username == username && this.password == password
      ensures this.name == name && this.token == token
    {
      this.id := id;
      this.username := username;
      this.password := password;
      this.name := name;
      this.token := token;
    }

    /** The string column named `column`, as Eloquent's attribute access reads it
        (`$user->token` reads column "token"). `id` is the integer key and is
        read as the field itself. */
    function Attribute(column: string): Option<string>
      reads this
    {
      if column == "username" then Some(username)
      else if column == "password" then Some(password)
      else if column == "name" then Some(name)
      else if column == "token" then token
      else None
    }

    /** The column that identifies a user to the authentication layer. */
    function GetAuthIdentifierName(): (n: string)
      ensures n == "username"
    {
      "username"
    }

    /** The identifier is the value of the identifier column. */
    function GetAuthIdentifier(): (identifier: string)
      reads this
      ensures Attribute(GetAuthIdentifierName()) == Some(identifier)
    {
      username
    }

    /** The stored password hash, handed back unchanged. */
    function GetAuthPassword(): (hash: string)
      reads this
      ensures Attribute("password") == Some(hash)
    {
      password
    }

    /** The column that holds the session ("remember") token. */
    function GetRememberTokenName(): (n: string)
      ensures n == "token"
    {
      "token"
    }

    /** The session token is the value of the remember-token column. */
    function GetRememberToken(): (t: Option<string>)
      reads this
      ensures t == Attribute(GetRememberTokenName())
      ensures t == Attribute("token")
    {
      token
    }

    /** Stores a new session token; reading it back gives the same value and
        no other column changes. */
    method SetRememberToken(value: Option<string>)
      modifies this`token
      ensures GetRememberToken() == value
      ensures forall column :: column != GetRememberTokenName() ==> Attribute(column) == old(Attribute(column))
      ensures id == old(id)
    {
      token := value;
    }

    /** Mass assignment from request data: each fillable key present in the
        data overwrites its column, every other key is discarded, and the key
        and the session token keep their values. */
    method Fill(attributes: map<string, string>)
      modifies this`username, this`password, this`name
      ensures forall k :: k in MassAssignable(attributes) ==> Attribute(k) == Some(attributes[k])
      ensures forall column :: column !in MassAssignable(attributes) ==> Attribute(column) == old(Attribute(column))
      ensures id == old(id) && token == old(token)
    {
      if "username" in attributes {
        username := attributes["username"];
      }
      if "password" in attributes {
        password := attributes["password"];
      }
      if "name" in attributes {
        name := attributes["name"];
      }
    }
  }
}
