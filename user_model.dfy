/** The User record and its field validator (users/models.py). */
module UserModel {
  import opened Common

  /** The `User` record: an id and a display name. */
  datatype User = User(userId: string, name: string)

  /** A user whose fields have both passed `ValidateNotEmpty`: the only kind
      of `User` the model can build, store or return. */
  type ValidUser = u: User | HasVisible(u.userId) && HasVisible(u.name)
    witness SampleUser()

  /** A user with one-letter id and name, the witness that `ValidUser` is
      inhabited. */
  function SampleUser(): (u: User)
    ensures HasVisible(u.userId) && HasVisible(u.name)
  {
    assert !IsSpace("u"[0]) && !IsSpace("n"[0]);
    User("u", "n")
  }

  /** Python's `str.isspace()` for one character: the Unicode characters whose
      bidirectional class is WS, B or S, or whose category is Zs. */
  predicate IsSpace(c: char) {
    var n := c as int;
    (0x09 <= n <= 0x0D) || (0x1C <= n <= 0x20) || n == 0x85 || n == 0xA0
    || n == 0x1680 || (0x2000 <= n <= 0x200A) || n == 0x2028 || n == 0x2029
    || n == 0x202F || n == 0x205F || n == 0x3000
  }

  /** Leading whitespace removed (the left half of `str.strip()`). */
  function TrimStart(s: string): string {
    if |s| > 0 && IsSpace(s[0]) then TrimStart(s[1..]) else s
  }

  /** Trailing whitespace removed (the right half of `str.strip()`). */
  function TrimEnd(s: string): string {
    if |s| > 0 && IsSpace(s[|s| - 1]) then TrimEnd(s[..|s| - 1]) else s
  }

  /** Python's `str.strip()` with no argument. */
  function Strip(s: string): string {
    TrimEnd(TrimStart(s))
  }

  /** The string holds at least one character that is not whitespace. */
  predicate HasVisible(s: string) {
    exists i :: 0 <= i < |s| && !IsSpace(s[i])
  }

  lemma {:induction false} TrimStartEmpty(s: string)
    ensures TrimStart(s) == [] <==> !HasVisible(s)
  {
    if |s| > 0 && IsSpace(s[0]) {
      TrimStartEmpty(s[1..]);
      if HasVisible(s) {
        var i :| 0 <= i < |s| && !IsSpace(s[i]);
        assert !IsSpace(s[1..][i - 1]);
      }
      if HasVisible(s[1..]) {
        var i :| 0 <= i < |s[1..]| && !IsSpace(s[1..][i]);
        assert !IsSpace(s[i + 1]);
      }
    } else if |s| > 0 {
      assert !IsSpace(s[0]);
    }
  }

  /** `TrimEnd` of a string that starts with a visible character keeps that
      character, so the result is not empty. */
  lemma {:induction false} TrimEndKeepsVisibleHead(s: string)
    requires |s| > 0 && !IsSpace(s[0])
    ensures TrimEnd(s) != []
  {
    if IsSpace(s[|s| - 1]) {
      TrimEndKeepsVisibleHead(s[..|s| - 1]);
    }
  }

  /** `s.strip() == ""` exactly when `s` holds only whitespace (or nothing). */
  lemma StripEmpty(s: string)
    ensures Strip(s) == [] <==> !HasVisible(s)
  {
    TrimStartEmpty(s);
    if TrimStart(s) != [] {
      TrimStartHead(s);
      TrimEndKeepsVisibleHead(TrimStart(s));
    }
  }

  /** A non-empty `TrimStart` result starts with a visible character. */
  lemma {:induction false} TrimStartHead(s: string)
    requires TrimStart(s) != []
    ensures !IsSpace(TrimStart(s)[0])
  {
    if |s| > 0 && IsSpace(s[0]) {
      TrimStartHead(s[1..]);
    }
  }

  /** `User.validate_not_empty`: rejects the empty string and strings made only
      of whitespace; any other string is returned unchanged, not trimmed. */
  function ValidateNotEmpty(v: string): (r: Result<string>)
    ensures r.Success? <==> HasVisible(v)
    ensures r.Success? ==> r.value == v
    ensures r.Failure? ==> r.error == Invalid
  {
    StripEmpty(v);
    if |v| == 0 || Strip(v) == "" then Failure(Invalid) else Success(v)
  }

  /** Building a `User`: the validator runs on `userId` and on `name`, and the
      user exists only when both pass. */
  function NewUser(userId: string, name: string): (r: Result<ValidUser>)
    ensures r.Success? <==> HasVisible(userId) && HasVisible(name)
    ensures r.Success? ==> r.value == User(userId, name)
    ensures r.Failure? ==> r.error == Invalid
  {
    match ValidateNotEmpty(userId)
    case Failure(e) => Failure(e)
    case Success(id) =>
      match ValidateNotEmpty(name)
      case Failure(e) => Failure(e)
      case Success(n) =>
        var u: ValidUser := User(id, n);
        Success(u)
  }

  lemma NewUserRejectsEmpty(name: string)
    ensures NewUser("", name) == Failure(Invalid)
    ensures NewUser(name, "") == Failure(Invalid)
  {
  }

  lemma NewUserRejectsBlank()
    ensures NewUser(" \t\n", "Ada") == Failure(Invalid)
    ensures NewUser("u1", "  ") == Failure(Invalid)
    ensures NewUser(" u1 ", "Ada").Success? && NewUser(" u1 ", "Ada").value == User(" u1 ", "Ada")
  {
  }
}
