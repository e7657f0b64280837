/**
 * The user schema: what a user document must contain to be accepted, how its
 * fields are normalised and defaulted, the unique index on `email`, the
 * pre-save hook that hashes a modified password, and `matchPassword`.
 * bcrypt is a collaborator: its salt generator, hash and compare are passed in
 * as functions.
 */
module UserModel {
  import opened Wrappers

  type Error = string
  type Salt = string

  /** `minlength` of `password`. */
  const MinPasswordLength: nat := 6
  /** The cost passed to `bcrypt.genSalt`. */
  const SaltRounds: nat := 10
  /** The default of a cart item's `quantity`. */
  const DefaultQuantity: int := 1

  /** The `role` enum; `Customer` is the default. */
  datatype Role = Customer | Admin

  datatype CartItem = CartItem(quantity: int, product: Option<string>)

  /** A user as stored: every path cast, normalised and defaulted. */
  datatype User = User(name: string, email: string, password: string, cartItems: seq<CartItem>, role: Role)

  /** The fields as submitted; `None` is a path left undefined. */
  datatype CartItemInput = CartItemInput(quantity: Option<int>, product: Option<string>)
  datatype UserInput = UserInput(
    name: Option<string>,
    email: Option<string>,
    password: Option<string>,
    cartItems: seq<CartItemInput>,
    role: Option<string>)

  /** The validator errors a document can collect. */
  datatype Violation = NameRequired | EmailRequired | PasswordRequired | PasswordTooShort | RoleNotInEnum

  /** The unique index on `email` rejected an insert. */
  datatype DuplicateKey = DuplicateEmail(email: string)

  // ---------------------------------------------------------------- normalisation

  /** The characters JavaScript's `trim` removes: WhiteSpace and LineTerminator. */
  predicate IsJsWhitespace(c: char) {
    || c == '\t' || c == '\n' || c == '\U{000B}' || c == '\U{000C}' || c == '\r'
    || c == ' ' || c == '\U{00A0}' || c == '\U{1680}'
    || ('\U{2000}' <= c <= '\U{200A}')
    || c == '\U{2028}' || c == '\U{2029}' || c == '\U{202F}' || c == '\U{205F}'
    || c == '\U{3000}' || c == '\U{FEFF}'
  }

  /** Leading whitespace removed: a suffix of `s` that is empty or starts with a non-space. */
  function TrimStart(s: string): (r: string)
    ensures |r| <= |s| && r == s[|s| - |r|..]
    ensures r == [] || !IsJsWhitespace(r[0])
    ensures forall i :: 0 <= i < |s| - |r| ==> IsJsWhitespace(s[i])
  {
    if s != [] && IsJsWhitespace(s[0]) then TrimStart(s[1..]) else s
  }

  /** Trailing whitespace removed: a prefix of `s` that is empty or ends with a non-space. */
  function TrimEnd(s: string): (r: string)
    ensures |r| <= |s| && r == s[..|r|]
    ensures r == [] || !IsJsWhitespace(r[|r| - 1])
    ensures forall i :: |r| <= i < |s| ==> IsJsWhitespace(s[i])
  {
    if s != [] && IsJsWhitespace(s[|s| - 1]) then TrimEnd(s[..|s| - 1]) else s
  }

  /** Everything of `s` before `a` and from `b` on is whitespace. */
  predicate WhitespaceOutside(s: string, a: int, b: int) {
    && 0 <= a <= b <= |s|
    && (forall i :: 0 <= i < a ==> IsJsWhitespace(s[i]))
    && (forall i :: b <= i < |s| ==> IsJsWhitespace(s[i]))
  }

  /** `r` is a stretch `s[a..b]` of `s` with only whitespace around it. */
  ghost predicate IsTrimmingOf(r: string, s: string) {
    exists a, b :: WhitespaceOutside(s, a, b) && r == s[a..b]
  }

  /**
   * `String.prototype.trim`, the schema's `trim: true`: a stretch of `s` with only
   * whitespace around it, empty or beginning and ending with a non-space.
   */
  function Trim(s: string): (r: string)
    ensures IsTrimmingOf(r, s)
    ensures r == [] || (!IsJsWhitespace(r[0]) && !IsJsWhitespace(r[|r| - 1]))
  {
    var u := TrimStart(s);
    var r := TrimEnd(u);
    assert r != [] ==> r[0] == u[0];
    TrimIsSlice(s);
    r
  }

  /** Cutting leading then trailing whitespace leaves a stretch with only whitespace around it. */
  lemma TrimIsSlice(s: string)
    ensures IsTrimmingOf(TrimEnd(TrimStart(s)), s)
  {
    var u := TrimStart(s);
    var a := |s| - |u|;
    var r := TrimEnd(u);
    PrefixOfSuffix(s, a, r);
    assert WhitespaceOutside(s, a, a + |r|) && r == s[a..a + |r|];
  }

  /** A prefix `r` of the suffix `s[a..]`, followed there only by whitespace, is a stretch of `s`. */
  lemma PrefixOfSuffix(s: string, a: nat, r: string)
    requires a <= |s| && |r| <= |s| - a && r == s[a..][..|r|]
    requires forall i :: 0 <= i < a ==> IsJsWhitespace(s[i])
    requires forall i :: |r| <= i < |s| - a ==> IsJsWhitespace(s[a..][i])
    ensures WhitespaceOutside(s, a, a + |r|) && r == s[a..a + |r|]
  {
    forall i | a + |r| <= i < |s| ensures IsJsWhitespace(s[i]) {
      assert s[i] == s[a..][i - a];
    }
  }

  function LowerChar(c: char): (d: char)
    ensures !('A' <= d <= 'Z')
    ensures IsJsWhitespace(d) <==> IsJsWhitespace(c)
  {
    if 'A' <= c <= 'Z' then (c as int - 'A' as int + 'a' as int) as char else c
  }

  /** `String.prototype.toLowerCase` on ASCII letters, the schema's `lowercase: true`. */
  function ToLower(s: string): (r: string)
    ensures |r| == |s| && forall i :: 0 <= i < |s| ==> r[i] == LowerChar(s[i])
  {
    if s == [] then [] else [LowerChar(s[0])] + ToLower(s[1..])
  }

  predicate HasNoUpper(s: string) {
    forall i :: 0 <= i < |s| ==> !('A' <= s[i] <= 'Z')
  }

  /**
   * The value stored for `email`: lower-cased, then trimmed. It is a stretch
   * `ToLower(s)[a..b]` with only whitespace around it.
   */
  function NormalizeEmail(s: string): (e: string)
    ensures IsTrimmingOf(e, ToLower(s))
    ensures HasNoUpper(e)
    ensures e == [] || (!IsJsWhitespace(e[0]) && !IsJsWhitespace(e[|e| - 1]))
  {
    var lower := ToLower(s);
    TrimKeepsNoUpper(lower);
    Trim(lower)
  }

  /** Trimming a string without capitals leaves none. */
  lemma TrimKeepsNoUpper(s: string)
    requires HasNoUpper(s)
    ensures HasNoUpper(Trim(s))
  {
    var e := Trim(s);
    var a, b :| WhitespaceOutside(s, a, b) && e == s[a..b];
    forall i | 0 <= i < |e| ensures !('A' <= e[i] <= 'Z') {
      assert e[i] == s[a + i];
    }
  }

  /** Trimming an already trimmed string changes nothing. */
  lemma TrimIdempotent(s: string)
    ensures Trim(Trim(s)) == Trim(s)
  {
    var t := Trim(s);
    assert TrimStart(t) == t;
    assert TrimEnd(t) == t;
  }

  /** Lower-casing a string without capitals changes nothing. */
  lemma {:induction false} ToLowerNoUpper(s: string)
    requires HasNoUpper(s)
    ensures ToLower(s) == s
  {
    if s != [] {
      ToLowerNoUpper(s[1..]);
    }
  }

  /** Lower-casing and trimming commute, so the order the two setters run in does not matter. */
  lemma TrimLowerCommute(s: string)
    ensures Trim(ToLower(s)) == ToLower(Trim(s))
  {
    TrimStartLower(s);
    TrimEndLower(TrimStart(s));
  }

  lemma {:induction false} TrimStartLower(s: string)
    ensures TrimStart(ToLower(s)) == ToLower(TrimStart(s))
  {
    if s != [] {
      assert ToLower(s)[1..] == ToLower(s[1..]);
      TrimStartLower(s[1..]);
    }
  }

  lemma {:induction false} TrimEndLower(s: string)
    ensures TrimEnd(ToLower(s)) == ToLower(TrimEnd(s))
  {
    if s != [] {
      var m := |s| - 1;
      assert ToLower(s)[..m] == ToLower(s[..m]);
      TrimEndLower(s[..m]);
    }
  }

  /** Normalising an already normalised email leaves it unchanged. */
  lemma NormalizeEmailIdempotent(s: string)
    ensures NormalizeEmail(NormalizeEmail(s)) == NormalizeEmail(s)
  {
    var e := NormalizeEmail(s);
    ToLowerNoUpper(e);
    TrimIdempotent(ToLower(s));
  }

  // ---------------------------------------------------------------- validation

  /** `required` on a String path: defined and not the empty string. */
  predicate Present(v: Option<string>) {
    v.Some? && v.value != ""
  }

  /** The `role` enum with its default. */
  function ParseRole(given: Option<string>): (r: Option<Role>)
    ensures given.None? ==> r == Some(Customer)
    ensures r.Some? <==> given.None? || given.value in {"customer", "admin"}
    ensures given == Some("customer") ==> r == Some(Customer)
    ensures given == Some("admin") ==> r == Some(Admin)
  {
    match given
    case None => Some(Customer)
    case Some(s) =>
      if s == "customer" then Some(Customer)
      else if s == "admin" then Some(Admin)
      else None
  }

  /** Casting a cart item: an undefined `quantity` takes its default. */
  function CastCartItem(item: CartItemInput): (c: CartItem)
    ensures item.quantity.None? ==> c.quantity == DefaultQuantity
    ensures item.quantity.Some? ==> c.quantity == item.quantity.value
    ensures c.product == item.product
  {
    CartItem(if item.quantity.Some? then item.quantity.value else DefaultQuantity, item.product)
  }

  /** The `email` path after its setters have run. */
  function CastEmail(given: Option<string>): (e: Option<string>)
    ensures e.Some? <==> given.Some?
    ensures e.Some? ==> e.value == NormalizeEmail(given.value)
  {
    match given
    case None => None
    case Some(s) => Some(NormalizeEmail(s))
  }

  /**
   * JavaScript's `.length`, which `minlength` compares: UTF-16 code units, so a
   * character beyond U+FFFF counts twice.
   */
  function Utf16Length(s: string): (n: nat)
    ensures |s| <= n <= 2 * |s|
    ensures (forall i :: 0 <= i < |s| ==> s[i] as int < 0x10000) ==> n == |s|
  {
    if s == [] then 0
    else (if s[0] as int < 0x10000 then 1 else 2) + Utf16Length(s[1..])
  }

  /**
   * Whether validator `x` fails on `u`, after the setters have run on `email`.
   * A path's `required` check runs first and its other validators only when it
   * passes, so a missing password is reported once.
   */
  predicate Fails(u: UserInput, x: Violation) {
    match x
    case NameRequired => !Present(u.name)
    case EmailRequired => !Present(CastEmail(u.email))
    case PasswordRequired => !Present(u.password)
    case PasswordTooShort => Present(u.password) && Utf16Length(u.password.value) < MinPasswordLength
    case RoleNotInEnum => ParseRole(u.role).None?
  }

  /** Every validator that fails. */
  function Violations(u: UserInput): (v: set<Violation>)
    ensures forall x :: x in v <==> Fails(u, x)
  {
    set x | x in {NameRequired, EmailRequired, PasswordRequired, PasswordTooShort, RoleNotInEnum} && Fails(u, x)
  }

  /** Casting every cart item. */
  function CastCartItems(items: seq<CartItemInput>): (cast: seq<CartItem>)
    ensures |cast| == |items|
    ensures forall i :: 0 <= i < |items| ==> cast[i] == CastCartItem(items[i])
    ensures forall i :: 0 <= i < |items| && items[i].quantity.None? ==> cast[i].quantity == DefaultQuantity
  {
    seq(|items|, i requires 0 <= i < |items| => CastCartItem(items[i]))
  }

  /** The rules a submitted user must meet to be saved. */
  predicate Acceptable(u: UserInput) {
    && Present(u.name)
    && Present(CastEmail(u.email))
    && u.password.Some? && Utf16Length(u.password.value) >= MinPasswordLength
    && ParseRole(u.role).Some?
  }

  /** The stored user built from a submission: cast, normalised and defaulted. */
  function Build(u: UserInput): (user: User)
    requires u.name.Some? && u.email.Some? && u.password.Some? && ParseRole(u.role).Some?
    ensures user.name == u.name.value && user.password == u.password.value
    ensures user.email == NormalizeEmail(u.email.value)
    ensures user.role == ParseRole(u.role).value
    ensures u.role.None? ==> user.role == Customer
    ensures user.cartItems == CastCartItems(u.cartItems)
    ensures |user.cartItems| == |u.cartItems|
    ensures forall i :: 0 <= i < |u.cartItems| && u.cartItems[i].quantity.None? ==>
              user.cartItems[i].quantity == DefaultQuantity
  {
    var cart := CastCartItems(u.cartItems);
    User(u.name.value, NormalizeEmail(u.email.value), u.password.value, cart, ParseRole(u.role).value)
  }

  /** A submission that breaks a rule fails at least one validator. */
  lemma SomeViolation(u: UserInput)
    requires !Acceptable(u)
    ensures Violations(u) != {}
  {
    var failing :=
      if !Present(u.name) then NameRequired
      else if !Present(CastEmail(u.email)) then EmailRequired
      else if !Present(u.password) then PasswordRequired
      else if Utf16Length(u.password.value) < MinPasswordLength then PasswordTooShort
      else RoleNotInEnum;
    assert Fails(u, failing);
  }

  /** A submission that meets every rule fails no validator. */
  lemma NoViolation(u: UserInput)
    requires Acceptable(u)
    ensures Violations(u) == {}
  {
    forall x ensures !Fails(u, x) {
      match x
      case NameRequired =>
      case EmailRequired =>
      case PasswordRequired =>
      case PasswordTooShort =>
      case RoleNotInEnum =>
    }
  }

  /**
   * Validating a submitted user. It is accepted exactly when name, email and
   * password are present, the password is at least six UTF-16 code units long
   * and the role is in the enum, that is exactly when no validator fails;
   * otherwise it is rejected with every failing validator.
   */
  function Accept(u: UserInput): (r: Result<User, set<Violation>>)
    ensures r.Ok? <==>
              && Present(u.name)
              && u.email.Some? && NormalizeEmail(u.email.value) != ""
              && u.password.Some? && Utf16Length(u.password.value) >= MinPasswordLength
              && ParseRole(u.role).Some?
    ensures r.Ok? <==> Violations(u) == {}
    ensures r.Ok? ==>
              && r.value.name == u.name.value
              && r.value.email == NormalizeEmail(u.email.value)
              && r.value.password == u.password.value
              && r.value.role == ParseRole(u.role).value
              && (u.role.None? ==> r.value.role == Customer)
              && r.value.cartItems == CastCartItems(u.cartItems)
              && |r.value.cartItems| == |u.cartItems|
              && (forall i :: 0 <= i < |u.cartItems| && u.cartItems[i].quantity.None? ==>
                    r.value.cartItems[i].quantity == DefaultQuantity)
    ensures r.Err? ==> r.error != {} && forall x :: x in r.error <==> Fails(u, x)
  {
    if Acceptable(u) then
      NoViolation(u);
      Ok(Build(u))
    else
      SomeViolation(u);
      Err(Violations(u))
  }

  /** The stored email of an accepted user is normalised: normalising it again changes nothing. */
  lemma AcceptedEmailNormalized(u: UserInput)
    ensures Accept(u).Ok? ==> NormalizeEmail(Accept(u).value.email) == Accept(u).value.email
  {
    if Accept(u).Ok? {
      NormalizeEmailIdempotent(u.email.value);
    }
  }

  // ---------------------------------------------------------------- unique index

  predicate UniqueEmails(users: seq<User>) {
    forall i, j :: 0 <= i < j < |users| ==> users[i].email != users[j].email
  }

  /** Inserting into the collection with its unique index on `email`. */
  function Insert(users: seq<User>, u: User): (r: Result<seq<User>, DuplicateKey>)
    ensures r.Ok? <==> forall v :: v in users ==> v.email != u.email
    ensures r.Ok? ==> r.value == users + [u]
    ensures r.Err? ==> r.error == DuplicateEmail(u.email)
    ensures r.Ok? && UniqueEmails(users) ==> UniqueEmails(r.value)
  {
    if exists v :: v in users && v.email == u.email then Err(DuplicateEmail(u.email))
    else
      assert forall i :: 0 <= i < |users| ==> users[i] in users;
      Ok(users + [u])
  }

  // ---------------------------------------------------------------- documents

  /**
   * bcrypt's promise that a digest made from a password verifies against it:
   * whenever `hash(p, salt)` yields `h`, `compare(p, h)` holds.
   */
  ghost predicate HashVerifies(hash: (string, Salt) -> Result<string, Error>,
                               compare: (string, string) -> bool)
  {
    forall p, salt :: hash(p, salt).Ok? ==> compare(p, hash(p, salt).value)
  }

  /** A user document, with Mongoose's record of whether `password` was modified since the last save. */
  class UserDocument {
    var data: User
    var passwordModified: bool

    /** A new document: every path it was created with counts as modified. */
    constructor (u: User)
      ensures data == u && passwordModified
    {
      data := u;
      passwordModified := true;
    }

    /** Assigning `password` marks the path modified. */
    method SetPassword(p: string)
      modifies this
      ensures data == old(data).(password := p) && passwordModified
    {
      data := data.(password := p);
      passwordModified := true;
    }

    /**
     * The `pre("save")` hook. An unmodified password is left alone. A modified
     * one is replaced by `hash(password, genSalt(10))`; if either bcrypt call
     * fails, the save fails with that error and the password is left as it was.
     * `r` is the error passed to `next`, if any.
     */
    method PreSave(genSalt: nat -> Result<Salt, Error>, hash: (string, Salt) -> Result<string, Error>,
                   ghost compare: (string, string) -> bool)
      returns (r: Option<Error>)
      modifies this`data
      ensures !old(passwordModified) ==> r == None && data == old(data)
      ensures old(passwordModified) && genSalt(SaltRounds).Err? ==>
                r == Some(genSalt(SaltRounds).error) && data == old(data)
      ensures old(passwordModified) && genSalt(SaltRounds).Ok? ==>
                var digest := hash(old(data.password), genSalt(SaltRounds).value);
                && (digest.Err? ==> r == Some(digest.error) && data == old(data))
                && (digest.Ok? ==> r == None && data == old(data).(password := digest.value))
      ensures old(passwordModified) && r == None && HashVerifies(hash, compare) ==>
                MatchPassword(old(data.password), compare)
    {
      if !passwordModified {
        return None;
      }
      var salt := genSalt(SaltRounds);
      if salt.Err? {
        return Some(salt.error);
      }
      var digest := hash(data.password, salt.value);
      if digest.Err? {
        return Some(digest.error);
      }
      data := data.(password := digest.value);
      r := None;
    }

    /** `matchPassword`: bcrypt's comparison of the candidate with the stored password, and nothing else. */
    function MatchPassword(candidate: string, compare: (string, string) -> bool): (r: bool)
      reads this`data
      ensures r == compare(candidate, data.password)
    {
      compare(candidate, data.password)
    }
  }
}
