/**
 * Sign-in and the session: the administrator allow-list, the credentials check around
 * Sign-In with Ethereum (EIP-4361), and the session callback that copies the signed-in
 * address into the session and flags administrators.
 *
 * Parsing a SIWE message and verifying its signature are not modelled; they are
 * passed in as functions (`parse`, `verify`) whose outcomes include the thrown errors.
 */
module Auth {
  import opened Wrappers
  import opened JsStrings

  // ---------------------------------------------------------------------------
  // The allow-list
  // ---------------------------------------------------------------------------

  /** The configured administrator addresses, as written (checksummed). */
  const AdminAddressLiterals: seq<string> := ["0x567868827e302b7cA004D37e5F67C51f3e80A971"]

  /** `addresses.map((addr) => addr.toLowerCase())` */
  function LowerAll(addresses: seq<string>): (lowered: seq<string>)
    ensures |lowered| == |addresses|
    ensures forall i :: 0 <= i < |addresses| ==> lowered[i] == Lower(addresses[i])
  {
    seq(|addresses|, i requires 0 <= i < |addresses| => Lower(addresses[i]))
  }

  /** `ADMIN_ADDRESSES` */
  const AdminAddresses: seq<string> := LowerAll(AdminAddressLiterals)

  lemma LowerAllIsLowercase(addresses: seq<string>)
    ensures forall a :: a in LowerAll(addresses) ==> IsLowercase(a)
  {
    var lowered := LowerAll(addresses);
    forall a | a in lowered
      ensures IsLowercase(a)
    {
      var i :| 0 <= i < |lowered| && lowered[i] == a;
      LowerIsLowercase(addresses[i]);
    }
  }

  /** Every entry of the allow-list is in lower case. */
  lemma AdminAddressesAreLowercase()
    ensures |AdminAddresses| == |AdminAddressLiterals|
    ensures forall a :: a in AdminAddresses ==> IsLowercase(a)
  {
    LowerAllIsLowercase(AdminAddressLiterals);
  }

  /** `ADMIN_ADDRESSES.includes(sub.toLowerCase())`: the subject equals a configured
      address when letter case is ignored. */
  function IsAdmin(sub: string): (admin: bool)
    ensures admin <==> exists i :: 0 <= i < |AdminAddressLiterals| && Lower(sub) == Lower(AdminAddressLiterals[i])
  {
    Lower(sub) in AdminAddresses
  }

  /** The configured address is recognised however its letters are cased. */
  lemma ConfiguredAddressIsAdmin(sub: string)
    requires Lower(sub) == Lower(AdminAddressLiterals[0])
    ensures IsAdmin(sub)
  {
    assert Lower(sub) == AdminAddresses[0];
  }

  /** Two subjects spelled alike up to letter case are both administrators or neither. */
  lemma AdminCheckIgnoresCase(a: string, b: string)
    requires Lower(a) == Lower(b)
    ensures IsAdmin(a) <==> IsAdmin(b)
  {
  }

  // ---------------------------------------------------------------------------
  // authorize
  // ---------------------------------------------------------------------------

  /** The submitted credentials; each field may be absent. */
  datatype Credentials = Credentials(message: Option<string>, signature: Option<string>)

  /** `new SiweMessage(text)`: the parsed message's address, or the error it throws. */
  datatype SiweParse = Parsed(address: string) | ParseError

  /** `siwe.verify({signature})`: the result's `success` flag, or the error it throws
      (a rejected promise). */
  datatype SiweVerify = Verified(success: bool) | VerifyError

  /** The user `authorize` signs in. */
  datatype AuthUser = AuthUser(id: string)

  /** A credential field passes `!field` only when present and non-empty. */
  predicate Truthy(field: Option<string>) {
    field.Some? && field.value != ""
  }

  predicate Complete(credentials: Option<Credentials>) {
    credentials.Some? && Truthy(credentials.value.message) && Truthy(credentials.value.signature)
  }

  /** `authorize`: a user whose id is the message's address exactly when both fields are
      given, the message parses and the signature verifies with success; `None` (null)
      otherwise, including every thrown error. */
  function Authorize(credentials: Option<Credentials>, parse: string -> SiweParse,
                     verify: (string, string) -> SiweVerify): (user: Option<AuthUser>)
    ensures user.Some? <==>
      && Complete(credentials)
      && parse(credentials.value.message.value).Parsed?
      && verify(credentials.value.message.value, credentials.value.signature.value) == Verified(true)
    ensures user.Some? ==> user.value.id == parse(credentials.value.message.value).address
  {
    if !Complete(credentials) then
      None
    else
      var message := credentials.value.message.value;
      var signature := credentials.value.signature.value;
      match parse(message)
      case ParseError => None
      case Parsed(address) =>
        match verify(message, signature)
        case VerifyError => None
        case Verified(success) => if success then Some(AuthUser(address)) else None
  }

  /** With a field missing or empty, neither the parser nor the verifier is consulted:
      any two of them give the same `None`. */
  lemma IncompleteCredentialsNeverVerified(credentials: Option<Credentials>,
                                           parse: string -> SiweParse, verify: (string, string) -> SiweVerify,
                                           parse': string -> SiweParse, verify': (string, string) -> SiweVerify)
    requires !Complete(credentials)
    ensures Authorize(credentials, parse, verify) == Authorize(credentials, parse', verify') == None
  {
  }

  /** A message that does not parse is never verified. */
  lemma UnparsableMessageNeverVerified(credentials: Option<Credentials>, parse: string -> SiweParse,
                                       verify: (string, string) -> SiweVerify, verify': (string, string) -> SiweVerify)
    requires Complete(credentials) && parse(credentials.value.message.value) == ParseError
    ensures Authorize(credentials, parse, verify) == Authorize(credentials, parse, verify') == None
  {
  }

  // ---------------------------------------------------------------------------
  // The session callback
  // ---------------------------------------------------------------------------

  /** The JWT's subject: the address `authorize` returned as the user id. */
  datatype Token = Token(sub: Option<string>)

  datatype UserInfo = UserInfo(name: Option<string>)

  /** The session as the client receives it; `None` stands for an unset property. */
  datatype SessionData = SessionData(address: Option<string>, user: Option<UserInfo>,
                                     isAdmin: Option<bool>, expires: string)

  /** The session the callback returns for `session` and `token`. */
  function SessionAfter(session: SessionData, token: Token): SessionData {
    var isAdmin := if Truthy(token.sub) then Some(IsAdmin(token.sub.value)) else session.isAdmin;
    SessionData(token.sub, Some(UserInfo(token.sub)), isAdmin, session.expires)
  }

  /** The session next-auth hands to the callback before any of its properties are set. */
  function FreshSession(user: Option<UserInfo>, expires: string): SessionData {
    SessionData(None, user, None, expires)
  }

  /** The callback runs on every session check; running it again changes nothing. */
  lemma SessionCallbackIdempotent(session: SessionData, token: Token)
    ensures SessionAfter(SessionAfter(session, token), token) == SessionAfter(session, token)
  {
  }

  /** The address and the user's name are both the subject, and the expiry is kept. */
  lemma AddressIsUserName(session: SessionData, token: Token)
    ensures var after := SessionAfter(session, token);
      && after.address == token.sub
      && after.user == Some(UserInfo(token.sub))
      && after.expires == session.expires
  {
  }

  /** A truthy subject sets the administrator flag to its allow-list membership; an absent
      or empty subject leaves the flag as it was. */
  lemma AdminFlagFollowsSubject(session: SessionData, token: Token)
    ensures Truthy(token.sub) ==> SessionAfter(session, token).isAdmin == Some(IsAdmin(token.sub.value))
    ensures !Truthy(token.sub) ==> SessionAfter(session, token).isAdmin == session.isAdmin
  {
  }

  /** Starting from a fresh session, the administrator flag is set to true exactly for a
      non-empty subject on the allow-list, and stays unset without a subject. */
  lemma AdminFlagOfFreshSession(user: Option<UserInfo>, expires: string, token: Token)
    ensures var after := SessionAfter(FreshSession(user, expires), token);
      && (after.isAdmin == Some(true) <==> Truthy(token.sub) && IsAdmin(token.sub.value))
      && (!Truthy(token.sub) ==> after.isAdmin.None?)
  {
  }

  /** The session object the callback receives and updates in place. */
  class Session {
    var address: Option<string>
    var user: Option<UserInfo>
    var isAdmin: Option<bool>
    var expires: string

    constructor(user: Option<UserInfo>, expires: string)
      ensures Data() == FreshSession(user, expires)
    {
      this.address := None;
      this.user := user;
      this.isAdmin := None;
      this.expires := expires;
    }

    function Data(): SessionData
      reads this
    {
      SessionData(address, user, isAdmin, expires)
    }

    /** The `session` callback: the subject becomes the address and the user's name, and
        a truthy subject sets the administrator flag. */
    method ApplySessionCallback(token: Token)
      modifies this
      ensures address == token.sub
      ensures user == Some(UserInfo(token.sub))
      ensures Truthy(token.sub) ==> isAdmin == Some(IsAdmin(token.sub.value))
      ensures !Truthy(token.sub) ==> isAdmin == old(isAdmin)
      ensures expires == old(expires)
      ensures Data() == SessionAfter(old(Data()), token)
    {
      address := token.sub;
      user := Some(UserInfo(token.sub));
      if Truthy(token.sub) {
        isAdmin := Some(IsAdmin(token.sub.value));
      }
    }
  }
}
