/**
 * The administrator dashboard's access gate: which of its four screens is shown for
 * the session's loading status, the wallet connection and the session.
 */
module AdminPage {
  import opened Wrappers
  import Auth

  /** `useSession().status` */
  datatype SessionStatus = Loading | Authenticated | Unauthenticated

  datatype AdminView = Loader | ConnectPrompt | AccessDenied | Panel

  /** `AdminDashboard`: the guards in their order, loading first, then a missing wallet
      connection or session, then a session without the administrator flag. */
  function AdminDashboard(status: SessionStatus, isConnected: bool, session: Option<Auth.SessionData>): (view: AdminView)
    ensures view == Loader <==> status == Loading
    ensures view == ConnectPrompt <==> status != Loading && (!isConnected || session.None?)
    ensures view == AccessDenied <==> status != Loading && isConnected && session.Some? && session.value.isAdmin != Some(true)
    ensures view == Panel <==> status != Loading && isConnected && session.Some? && session.value.isAdmin == Some(true)
  {
    if status == Loading then Loader
    else if !isConnected || session.None? then ConnectPrompt
    else if session.value.isAdmin != Some(true) then AccessDenied
    else Panel
  }

  /** While the session loads nothing else matters. */
  lemma LoadingShowsLoader(isConnected: bool, session: Option<Auth.SessionData>, isConnected': bool, session': Option<Auth.SessionData>)
    ensures AdminDashboard(Loading, isConnected, session) == AdminDashboard(Loading, isConnected', session') == Loader
  {
  }

  /** An unset flag is treated like `false`. */
  lemma UnsetFlagDenied(isConnected: bool, session: Auth.SessionData)
    requires isConnected && session.isAdmin.None?
    ensures AdminDashboard(Authenticated, isConnected, Some(session)) == AccessDenied
  {
  }

  /** For a session built by the session callback from a fresh session, the panel is
      shown exactly to a connected wallet whose subject is non-empty and on the allow-list,
      whatever the letter case of the subject. */
  lemma PanelOnlyForAdmins(status: SessionStatus, isConnected: bool, token: Auth.Token,
                           user: Option<Auth.UserInfo>, expires: string)
    ensures var session := Auth.SessionAfter(Auth.FreshSession(user, expires), token);
      AdminDashboard(status, isConnected, Some(session)) == Panel <==>
        status != Loading && isConnected && Auth.Truthy(token.sub) && Auth.IsAdmin(token.sub.value)
  {
    Auth.AdminFlagOfFreshSession(user, expires, token);
  }

  /** The gate the session object leads to once the callback has updated it. */
  method ServeAdminDashboard(status: SessionStatus, isConnected: bool, token: Auth.Token,
                             user: Option<Auth.UserInfo>, expires: string) returns (view: AdminView)
    ensures view == Panel <==>
      status != Loading && isConnected && Auth.Truthy(token.sub) && Auth.IsAdmin(token.sub.value)
    ensures view == AccessDenied <==>
      status != Loading && isConnected && !(Auth.Truthy(token.sub) && Auth.IsAdmin(token.sub.value))
  {
    var session := new Auth.Session(user, expires);
    session.ApplySessionCallback(token);
    PanelOnlyForAdmins(status, isConnected, token, user, expires);
    view := AdminDashboard(status, isConnected, Some(session.Data()));
  }
}
