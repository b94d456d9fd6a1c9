/** The authentication service: sign-in (which opens a session), sign-out, session
 *  renewal and check, and the password operations. The signed token the service
 *  generates is a parameter; the store keeps session tokens unique. */
module AuthService {
  import opened Wrappers
  import opened Tables
  import opened Models

  /** How long a session is accepted after sign-in or renewal: eight hours. */
  const Validade: int := 8 * Hour

  /** What a session operation leaves: how the call ended and the session table. */
  datatype AuthWrite<T> = AuthWrite(result: Call<T>, sessoes: Table<Sessao>)

  /** LoginResponseDto: the token, when it expires and the signed-in user. */
  datatype LoginResponse = LoginResponse(token: string, expiracao: Time, usuarioId: int, usuario: Usuario)

  /** Some session other than `except` has this token. */
  predicate TokenInUse(ss: Table<Sessao>, token: string, except: Option<int>) {
    exists k :: k in ss.rows && ss.rows[k].token == token && except != Some(k)
  }

  /** The session is accepted at `now`: it has the token and has not expired. */
  predicate Accepts(s: Sessao, token: string, now: Time) {
    s.token == token && s.dataExpiracao > now
  }

  // ---------------------------------------------------------------------------
  // Sign-in

  /** An active account with this e-mail address. */
  predicate CanSignIn(u: Usuario, email: string) {
    u.email == email && u.status == StatusUsuario.Ativo
  }

  function SignInCandidate(email: string): Usuario -> bool {
    u => CanSignIn(u, email)
  }

  /** LoginAsync: the first active user with the e-mail whose hash verifies the password
   *  gets a new session with the token, expiring eight hours from now; anyone else gets
   *  null. The store refuses a token another session has. */
  function LoginOf(us: Table<Usuario>, ss: Table<Sessao>, email: string, senha: string, token: string, now: Time)
    : AuthWrite<Option<LoginResponse>>
  {
    var first := us.FirstWhere(SignInCandidate(email));
    if first.None? || !VerifyPassword(senha, us.rows[first.value].senhaHash) then AuthWrite(Returns(None), ss)
    else if TokenInUse(ss, token, None) then AuthWrite(Throws(SaveFailedMessage), ss)
    else
      AuthWrite(Returns(Some(LoginResponse(token, now + Validade, first.value, us.rows[first.value]))),
                ss.Add(Sessao(first.value, token, now, now + Validade)))
  }

  /** With e-mails unique, sign-in gives null exactly when no active user has the e-mail
   *  and a hash verifying the password (so an inactive or suspended user never signs
   *  in), throws exactly when that user exists but the token is taken, and otherwise
   *  adds exactly one session, for that user, with the token, expiring now + 8h, and
   *  returns it. Only a successful sign-in changes the sessions. */
  lemma LoginOutcome(us: Table<Usuario>, ss: Table<Sessao>, email: string, senha: string, token: string, now: Time)
    requires us.Wf() && UniqueUserEmails(us.rows)
    ensures var o := LoginOf(us, ss, email, senha, token, now);
      var ok := exists k :: k in us.rows && CanSignIn(us.rows[k], email) && VerifyPassword(senha, us.rows[k].senhaHash);
      && (o.result == Returns(None) <==> !ok)
      && (o.result.Throws? <==> ok && TokenInUse(ss, token, None))
      && (o.result.Returns? && o.result.value.Some? ==>
            var r := o.result.value.value;
            && r.usuarioId in us.rows && r.usuario == us.rows[r.usuarioId]
            && CanSignIn(r.usuario, email) && VerifyPassword(senha, r.usuario.senhaHash)
            && r.token == token && r.expiracao == now + Validade
            && o.sessoes == ss.Add(Sessao(r.usuarioId, token, now, now + Validade)))
      && (!(o.result.Returns? && o.result.value.Some?) ==> o.sessoes == ss)
  {
    var first := us.FirstWhere(SignInCandidate(email));
    if k :| k in us.rows && CanSignIn(us.rows[k], email) && VerifyPassword(senha, us.rows[k].senhaHash) {
      assert SignInCandidate(email)(us.rows[k]);
      assert first.Some? && first.value == k;
    }
  }

  /** A new session keeps the sessions' invariant when its token is free. */
  lemma AddSessionKeepsInv(ss: Table<Sessao>, s: Sessao)
    requires SessoesInv(ss) && !TokenInUse(ss, s.token, None)
    ensures SessoesInv(ss.Add(s))
  {
  }

  /** Sign-in keeps the store invariant. */
  lemma LoginKeepsInv(s: Snapshot, email: string, senha: string, token: string, now: Time)
    requires s.Inv()
    ensures s.(sessoes := LoginOf(s.usuarios, s.sessoes, email, senha, token, now).sessoes).Inv()
  {
    var o := LoginOf(s.usuarios, s.sessoes, email, senha, token, now);
    InvOfSessoes(s, o.sessoes);
    if o.sessoes != s.sessoes {
      var first := s.usuarios.FirstWhere(SignInCandidate(email));
      AddSessionKeepsInv(s.sessoes, Sessao(first.value, token, now, now + Validade));
    }
  }

  method Login(db: Db, email: string, senha: string, token: string, now: Time)
    returns (r: Call<Option<LoginResponse>>)
    requires db.Valid()
    modifies db`sessoes
    ensures AuthWrite(r, db.sessoes) == LoginOf(db.usuarios, old(db.sessoes), email, senha, token, now)
    ensures db.Valid()
  {
    LoginKeepsInv(db.State(), email, senha, token, now);
    var first := db.usuarios.FirstWhere(SignInCandidate(email));
    if first.None? || !VerifyPassword(senha, db.usuarios.rows[first.value].senhaHash) {
      return Returns(None);
    }
    var expiracao := now + Validade;
    var sessao := Sessao(first.value, token, now, expiracao);
    if TokenInUse(db.sessoes, token, None) {
      return Throws(SaveFailedMessage);
    }
    db.sessoes := db.sessoes.Add(sessao);
    r := Returns(Some(LoginResponse(token, expiracao, first.value, db.usuarios.rows[first.value])));
    assert db.State() == old(db.State()).(sessoes := db.sessoes);
  }

  // ---------------------------------------------------------------------------
  // Sign-out, renewal and check

  function WithToken(token: string): Sessao -> bool {
    (s: Sessao) => s.token == token
  }

  /** The session has the token and its user is in the store. Renewal loads the session
   *  together with its (required) user, which the store answers with an inner join: a
   *  session whose user is gone is not found. */
  function WithTokenAndUser(us: Table<Usuario>, token: string): Sessao -> bool {
    (s: Sessao) => s.token == token && s.usuarioId in us.rows
  }

  /** LogoutAsync: removes the first session with the token, if any. */
  function LogoutOf(ss: Table<Sessao>, token: string): AuthWrite<bool> {
    var first := ss.FirstWhere(WithToken(token));
    if first.None? then AuthWrite(Returns(false), ss)
    else AuthWrite(Returns(true), ss.Remove({first.value}))
  }

  /** Sign-out is true exactly when a session has the token and then removes exactly
   *  one such session (with tokens unique, none is left); otherwise nothing changes. */
  lemma LogoutOutcome(ss: Table<Sessao>, token: string)
    requires ss.Wf()
    ensures var o := LogoutOf(ss, token);
      && o.result == Returns(TokenInUse(ss, token, None))
      && (TokenInUse(ss, token, None) ==>
            exists k :: k in ss.rows && ss.rows[k].token == token && o.sessoes == ss.Remove({k}))
      && (UniqueTokens(ss.rows) ==> !TokenInUse(o.sessoes, token, None))
      && (!TokenInUse(ss, token, None) ==> o.sessoes == ss)
  {
    var first := ss.FirstWhere(WithToken(token));
    if k :| k in ss.rows && ss.rows[k].token == token {
      assert WithToken(token)(ss.rows[k]);
    }
  }

  /** Removing a session keeps the sessions' invariant. */
  lemma LogoutKeepsInv(s: Snapshot, token: string)
    requires s.Inv()
    ensures s.(sessoes := LogoutOf(s.sessoes, token).sessoes).Inv()
  {
    InvOfSessoes(s, LogoutOf(s.sessoes, token).sessoes);
  }

  method Logout(db: Db, token: string) returns (r: Call<bool>)
    requires db.Valid()
    modifies db`sessoes
    ensures AuthWrite(r, db.sessoes) == LogoutOf(old(db.sessoes), token)
    ensures db.Valid()
  {
    LogoutKeepsInv(db.State(), token);
    var sessao := db.sessoes.FirstWhere(WithToken(token));
    if sessao.Some? {
      db.sessoes := db.sessoes.Remove({sessao.value});
      assert db.State() == old(db.State()).(sessoes := db.sessoes);
      return Returns(true);
    }
    r := Returns(false);
    assert db.State() == old(db.State()).(sessoes := db.sessoes);
  }

  /** RefreshTokenAsync: the first session with the token whose user is in the store,
   *  unless it has expired, gets the new token and expires eight hours from now;
   *  otherwise null. The store refuses a new token another session has. */
  function RefreshOf(us: Table<Usuario>, ss: Table<Sessao>, token: string, novoToken: string, now: Time)
    : AuthWrite<Option<string>>
  {
    var first := ss.FirstWhere(WithTokenAndUser(us, token));
    if first.None? || ss.rows[first.value].dataExpiracao <= now then AuthWrite(Returns(None), ss)
    else if TokenInUse(ss, novoToken, Some(first.value)) then AuthWrite(Throws(SaveFailedMessage), ss)
    else
      AuthWrite(Returns(Some(novoToken)),
                ss.Put(first.value, ss.rows[first.value].(token := novoToken, dataExpiracao := now + Validade)))
  }

  /** With tokens unique, renewal gives null exactly when no session of a user in the
   *  store accepts the token now; a successful renewal moves exactly that session to the
   *  new token with a new expiry (its user and creation time stay) and changes no other
   *  session. */
  lemma RefreshOutcome(us: Table<Usuario>, ss: Table<Sessao>, token: string, novoToken: string, now: Time)
    requires SessoesInv(ss)
    ensures var o := RefreshOf(us, ss, token, novoToken, now);
      && (o.result == Returns(None) <==>
            !exists k :: k in ss.rows && Accepts(ss.rows[k], token, now) && ss.rows[k].usuarioId in us.rows)
      && (o.result.Returns? && o.result.value.Some? ==>
            && o.result.value.value == novoToken
            && exists k :: k in ss.rows && Accepts(ss.rows[k], token, now) && ss.rows[k].usuarioId in us.rows
                 && o.sessoes.rows == ss.rows[k := ss.rows[k].(token := novoToken, dataExpiracao := now + Validade)]
                 && o.sessoes.next == ss.next)
      && (!(o.result.Returns? && o.result.value.Some?) ==> o.sessoes == ss)
  {
    var first := ss.FirstWhere(WithTokenAndUser(us, token));
    if k :| k in ss.rows && Accepts(ss.rows[k], token, now) && ss.rows[k].usuarioId in us.rows {
      assert WithTokenAndUser(us, token)(ss.rows[k]);
      assert first.Some? && first.value == k;
    }
  }

  /** Renewal keeps the sessions' invariant. */
  lemma RefreshKeepsInv(s: Snapshot, token: string, novoToken: string, now: Time)
    requires s.Inv()
    ensures s.(sessoes := RefreshOf(s.usuarios, s.sessoes, token, novoToken, now).sessoes).Inv()
  {
    var o := RefreshOf(s.usuarios, s.sessoes, token, novoToken, now);
    InvOfSessoes(s, o.sessoes);
  }

  method Refresh(db: Db, token: string, novoToken: string, now: Time) returns (r: Call<Option<string>>)
    requires db.Valid()
    modifies db`sessoes
    ensures AuthWrite(r, db.sessoes) == RefreshOf(db.usuarios, old(db.sessoes), token, novoToken, now)
    ensures db.Valid()
  {
    RefreshKeepsInv(db.State(), token, novoToken, now);
    var first := db.sessoes.FirstWhere(WithTokenAndUser(db.usuarios, token));
    if first.None? || db.sessoes.rows[first.value].dataExpiracao <= now {
      return Returns(None);
    }
    var sessao := db.sessoes.rows[first.value];
    if TokenInUse(db.sessoes, novoToken, Some(first.value)) {
      return Throws(SaveFailedMessage);
    }
    db.sessoes := db.sessoes.Put(first.value, sessao.(token := novoToken, dataExpiracao := now + Validade));
    r := Returns(Some(novoToken));
    assert db.State() == old(db.State()).(sessoes := db.sessoes);
  }

  function AcceptedWith(token: string, now: Time): Sessao -> bool {
    s => Accepts(s, token, now)
  }

  /** VerifyTokenAsync: whether some session accepts the token now. */
  method VerifyToken(db: Db, token: string, now: Time) returns (r: bool)
    requires db.sessoes.Wf()
    ensures r <==> exists k :: k in db.sessoes.rows && Accepts(db.sessoes.rows[k], token, now)
  {
    var sessao := db.sessoes.FirstWhere(AcceptedWith(token, now));
    r := sessao.Some?;
    if k :| k in db.sessoes.rows && Accepts(db.sessoes.rows[k], token, now) {
      assert AcceptedWith(token, now)(db.sessoes.rows[k]);
    }
  }

  /** Whether some session accepts the token at `now`. */
  predicate Valid(ss: Table<Sessao>, token: string, now: Time) {
    exists k :: k in ss.rows && Accepts(ss.rows[k], token, now)
  }

  /** At one instant the check and the renewal agree: a renewal that does not give null
   *  follows a check that passes, and when every session's user is in the store the
   *  check fails exactly when the renewal gives null. They part only on a session whose
   *  user is gone, which the check accepts and the renewal does not find. */
  lemma VerifyAgreesWithRefresh(us: Table<Usuario>, ss: Table<Sessao>, token: string, novoToken: string, now: Time)
    requires SessoesInv(ss)
    ensures RefreshOf(us, ss, token, novoToken, now).result != Returns(None) ==> Valid(ss, token, now)
    ensures (forall k :: k in ss.rows ==> ss.rows[k].usuarioId in us.rows) ==>
              (Valid(ss, token, now) <==> RefreshOf(us, ss, token, novoToken, now).result != Returns(None))
    ensures Valid(ss, token, now) && RefreshOf(us, ss, token, novoToken, now).result == Returns(None) ==>
              exists k :: k in ss.rows && Accepts(ss.rows[k], token, now) && ss.rows[k].usuarioId !in us.rows
  {
    RefreshOutcome(us, ss, token, novoToken, now);
  }

  /** The token of a successful sign-in is accepted until, and not at, eight hours later;
   *  after sign-out it is accepted no more. */
  lemma LoginLogoutRoundTrip(us: Table<Usuario>, ss: Table<Sessao>, email: string, senha: string, token: string,
                             now: Time, later: Time)
    requires SessoesInv(ss)
    requires LoginOf(us, ss, email, senha, token, now).result.Returns?
    requires LoginOf(us, ss, email, senha, token, now).result.value.Some?
    ensures var ss2 := LoginOf(us, ss, email, senha, token, now).sessoes;
      && (Valid(ss2, token, later) <==> later < now + Validade)
      && !Valid(LogoutOf(ss2, token).sessoes, token, later)
  {
    var ss2 := LoginOf(us, ss, email, senha, token, now).sessoes;
    assert ss2.rows[ss.next].token == token;
    AddSessionKeepsInv(ss, ss2.rows[ss.next]);
    if Valid(ss2, token, later) {
      var k :| k in ss2.rows && Accepts(ss2.rows[k], token, later);
      assert k == ss.next;
    }
    LogoutOutcome(ss2, token);
  }

  /** After a successful renewal the new token is accepted now and the old one (when
   *  different) no longer is. */
  lemma RefreshMovesToken(us: Table<Usuario>, ss: Table<Sessao>, token: string, novoToken: string, now: Time)
    requires SessoesInv(ss) && token != novoToken
    requires RefreshOf(us, ss, token, novoToken, now).result == Returns(Some(novoToken))
    ensures var ss2 := RefreshOf(us, ss, token, novoToken, now).sessoes;
      Valid(ss2, novoToken, now) && !TokenInUse(ss2, token, None)
  {
    RefreshOutcome(us, ss, token, novoToken, now);
    var ss2 := RefreshOf(us, ss, token, novoToken, now).sessoes;
    var k :| k in ss.rows && Accepts(ss.rows[k], token, now)
             && ss2.rows == ss.rows[k := ss.rows[k].(token := novoToken, dataExpiracao := now + Validade)];
    assert Accepts(ss2.rows[k], novoToken, now);
  }

  // ---------------------------------------------------------------------------
  // Passwords

  /** What a password change leaves: the answer and the user table. */
  datatype PasswordWrite = PasswordWrite(result: bool, usuarios: Table<Usuario>)

  /** ChangePasswordAsync: an unknown user or a current password that does not verify
   *  gives false; otherwise the hash of the new password is stored. */
  function ChangePasswordOf(us: Table<Usuario>, userId: int, senhaAtual: string, novaSenha: string, now: Time)
    : PasswordWrite
  {
    if userId !in us.rows || !VerifyPassword(senhaAtual, us.rows[userId].senhaHash) then PasswordWrite(false, us)
    else
      PasswordWrite(true, us.Put(userId, us.rows[userId].(senhaHash := Hash(novaSenha), dataUltimaAtualizacao := now)))
  }

  /** The change succeeds exactly for a known user whose current password verifies; then
   *  the new password verifies, the old one (when different) does not, and nothing but
   *  that user's hash and update time changes. */
  lemma ChangePasswordOutcome(us: Table<Usuario>, userId: int, senhaAtual: string, novaSenha: string, now: Time)
    ensures var o := ChangePasswordOf(us, userId, senhaAtual, novaSenha, now);
      && (o.result <==> userId in us.rows && VerifyPassword(senhaAtual, us.rows[userId].senhaHash))
      && (o.result ==>
            var u := o.usuarios.rows[userId];
            && o.usuarios.next == us.next
            && o.usuarios.rows == us.rows[userId := us.rows[userId].(senhaHash := u.senhaHash, dataUltimaAtualizacao := now)]
            && VerifyPassword(novaSenha, u.senhaHash)
            && (senhaAtual != novaSenha ==> !VerifyPassword(senhaAtual, u.senhaHash)))
      && (!o.result ==> o.usuarios == us)
  {
    HashVerifies(novaSenha, senhaAtual);
  }

  /** A password change keeps the store invariant (e-mail and CPF stay). */
  lemma ChangePasswordKeepsInv(s: Snapshot, userId: int, senhaAtual: string, novaSenha: string, now: Time)
    requires s.Inv()
    ensures s.(usuarios := ChangePasswordOf(s.usuarios, userId, senhaAtual, novaSenha, now).usuarios).Inv()
  {
    InvOfUsuarios(s, ChangePasswordOf(s.usuarios, userId, senhaAtual, novaSenha, now).usuarios);
  }

  method ChangePassword(db: Db, userId: int, senhaAtual: string, novaSenha: string, now: Time) returns (r: bool)
    requires db.Valid()
    modifies db`usuarios
    ensures PasswordWrite(r, db.usuarios) == ChangePasswordOf(old(db.usuarios), userId, senhaAtual, novaSenha, now)
    ensures db.Valid()
  {
    ChangePasswordKeepsInv(db.State(), userId, senhaAtual, novaSenha, now);
    if userId !in db.usuarios.rows || !VerifyPassword(senhaAtual, db.usuarios.rows[userId].senhaHash) {
      return false;
    }
    var usuario := db.usuarios.rows[userId];
    db.usuarios := db.usuarios.Put(userId, usuario.(senhaHash := Hash(novaSenha), dataUltimaAtualizacao := now));
    r := true;
    assert db.State() == old(db.State()).(usuarios := db.usuarios);
  }

  function WithEmail(email: string): Usuario -> bool {
    (u: Usuario) => u.email == email
  }

  /** ForgotPasswordAsync: true exactly when some user, of any status, has the e-mail;
   *  nothing is sent and nothing changes. */
  method ForgotPassword(db: Db, email: string) returns (r: bool)
    requires db.usuarios.Wf()
    ensures r <==> EmailInUse(db.usuarios, email, None)
  {
    var usuario := db.usuarios.FirstWhere(WithEmail(email));
    r := usuario.Some?;
    if k :| k in db.usuarios.rows && db.usuarios.rows[k].email == email {
      assert WithEmail(email)(db.usuarios.rows[k]);
    }
  }

  /** ResetPasswordAsync: not implemented; always false. */
  method ResetPassword(db: Db, token: string, novaSenha: string, confirmacaoSenha: string) returns (r: bool)
    ensures !r
  {
    r := false;
  }
}
