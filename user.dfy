/**
 * The participant record of user.py: a name, a match and an e-mail address
 * that defaults to the name at gmail.com.
 */
module UserRecord {
  import opened Options

  /** Python's `sep.join(parts)`: the parts with `sep` between neighbours. */
  function Join(sep: string, parts: seq<string>): (joined: string)
    decreases |parts|
  {
    if |parts| == 0 then ""
    else if |parts| == 1 then parts[0]
    else parts[0] + sep + Join(sep, parts[1..])
  }

  class User {
    var name: string
    var matched: User?  // `match` in user.py; `match` is a Dafny keyword
    var email: string

    /**
     * Stores name and match as given; when no address is given the address is
     * the default gmail one built from the name.
     */
    constructor (name: string, matchTo: User?, email: Option<string> := None)
      ensures this.name == name && this.matched == matchTo
      ensures email.Some? ==> this.email == email.value
      ensures email.None? ==> this.email == name + "@gmail.com"
    {
      this.name := name;
      this.matched := matchTo;
      if email.None? {
        this.email := FormatGmailEmail(name);
      } else {
        this.email := email.value;
      }
    }

    /** The gmail address whose local part is `user`. */
    static function FormatGmailEmail(user: string): (address: string)
      ensures address == user + "@" + "gmail.com"
      ensures address[..|user|] == user && address[|user|..] == "@gmail.com"
    {
      var parts := [user, "gmail.com"];
      assert parts[1..] == ["gmail.com"] && Join("@", ["gmail.com"]) == "gmail.com";
      Join("@", parts)
    }
  }

  /** Different users never get the same default address. */
  lemma GmailEmailInjective(a: string, b: string)
    requires User.FormatGmailEmail(a) == User.FormatGmailEmail(b)
    ensures a == b
  {
    var address := User.FormatGmailEmail(a);
    assert |a| == |address| - |"@gmail.com"| == |b|;
    assert a == address[..|a|] == b;
  }
}
