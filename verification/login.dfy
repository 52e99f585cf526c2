/** Where the password of a session comes from, and what is saved of it (src/client.rs). */
module Logins {
  import opened Wrappers

  datatype Source = PersonalAb(hash: Bytes) | SharedAb(password: string) | Undefined

  /** How the current password was obtained; the program does not record this. */
  datatype Origin = NoPassword | Preset | Shared | Saved | Personal | BuiltIn | Typed

  predicate IsForeign(o: Origin) {
    o == Shared || o == BuiltIn
  }

  /** A connection token carries the password of one session over to the next. */
  datatype Token = Token(password: Bytes, source: Source, sessionId: nat, origin: Origin)

  /** The digest of a password followed by a salt. */
  type Digest = string -> Bytes

  ghost predicate IsDigest(h: Digest) {
    forall s :: |h(s)| == 32
  }

  /** The parts of the login state that decide about passwords. saved is the password in the peer's configuration. */
  datatype Login = Login(password: Bytes, source: Source, shared: Option<string>, salt: string, remember: bool,
                         saved: Bytes, origin: Origin, savedOrigin: Origin, sessionId: nat)

  // ---- the source predicates ----

  predicate IsPersonalAb(source: Source, password: Bytes) {
    password != [] && source.PersonalAb? && source.hash == password
  }

  predicate IsSharedAb(h: Digest, source: Source, password: Bytes, salt: string) {
    password != [] && source.SharedAb? && h(source.password + salt) == password
  }

  // ---- events ----

  datatype Event =
    | Initialize(shared: Option<string>, token: Option<Token>, freshId: nat)
    | HashFrom(salt: string, preset: string, personal: Bytes, builtIn: string)
    | SwitchSides(salt: string)
    | WrongPassword
    | OtherError
    | LoginFromUi(typed: string, remember: bool)
    | PeerInfo

  /** One candidate for the password of a login, with what it would record. */
  datatype Candidate = Candidate(password: Bytes, source: Source, origin: Origin)

  function Hashed(h: Digest, password: string, salt: string): Bytes {
    if password == "" then [] else h(password + salt)
  }

  function FirstPassword(candidates: seq<Candidate>, otherwise: Candidate): (c: Candidate)
    ensures c == otherwise || c in candidates
    ensures c != otherwise ==> c.password != []
  {
    if candidates == [] then otherwise
    else if candidates[0].password != [] then candidates[0]
    else FirstPassword(candidates[1..], otherwise)
  }

  /** Order of precedence: shared, last, preset, saved, personal address book, built-in. */
  function Candidates(h: Digest, l: Login, salt: string, preset: string, personal: Bytes, builtIn: string)
    : seq<Candidate>
  {
    var shared := if l.shared.Some? then l.shared.value else "";
    [Candidate(Hashed(h, shared, salt), SharedAb(shared), Shared),
     Candidate(l.password, l.source, l.origin),
     Candidate(Hashed(h, preset, salt), Undefined, Preset),
     Candidate(l.saved, Undefined, l.savedOrigin),
     Candidate(personal, PersonalAb(personal), Personal),
     Candidate(Hashed(h, builtIn, salt), SharedAb(builtIn), BuiltIn)]
  }

  lemma FirstOfMore(cs: seq<Candidate>, otherwise: Candidate)
    requires cs != []
    ensures FirstPassword(cs, otherwise) == if cs[0].password != [] then cs[0] else FirstPassword(cs[1..], otherwise)
  {
  }

  lemma FirstOfSix(cs: seq<Candidate>, otherwise: Candidate)
    requires |cs| == 6
    ensures FirstPassword(cs, otherwise) ==
            if cs[0].password != [] then cs[0] else if cs[1].password != [] then cs[1]
            else if cs[2].password != [] then cs[2] else if cs[3].password != [] then cs[3]
            else if cs[4].password != [] then cs[4] else if cs[5].password != [] then cs[5]
            else otherwise
  {
    FirstOfMore(cs[2..], otherwise);
    FirstOfMore(cs[4..], otherwise);
    assert cs[1..][1..] == cs[2..] && cs[2..][1..] == cs[3..] && cs[3..][1..] == cs[4..] && cs[4..][1..] == cs[5..];
  }

  function AfterHash(h: Digest, l: Login, salt: string, preset: string, personal: Bytes, builtIn: string): Login {
    var c := FirstPassword(Candidates(h, l, salt, preset, personal, builtIn), Candidate([], l.source, NoPassword));
    l.(salt := salt, shared := None, password := c.password, source := c.source, origin := c.origin)
  }

  /** The precedence spelled out. */
  lemma ChosenChain(h: Digest, l: Login, salt: string, preset: string, personal: Bytes, builtIn: string)
    requires IsDigest(h)
    ensures FirstPassword(Candidates(h, l, salt, preset, personal, builtIn), Candidate([], l.source, NoPassword)) ==
            if l.shared.Some? && l.shared.value != "" then
              Candidate(h(l.shared.value + salt), SharedAb(l.shared.value), Shared)
            else if l.password != [] then Candidate(l.password, l.source, l.origin)
            else if preset != "" then Candidate(h(preset + salt), Undefined, Preset)
            else if l.saved != [] then Candidate(l.saved, Undefined, l.savedOrigin)
            else if personal != [] then Candidate(personal, PersonalAb(personal), Personal)
            else if builtIn != "" then Candidate(h(builtIn + salt), SharedAb(builtIn), BuiltIn)
            else Candidate([], l.source, NoPassword)
  {
    var cs := Candidates(h, l, salt, preset, personal, builtIn);
    FirstOfSix(cs, Candidate([], l.source, NoPassword));
    assert cs[0].password == [] <==> l.shared.None? || l.shared.value == "";
    assert cs[2].password == [] <==> preset == "";
    assert cs[5].password == [] <==> builtIn == "";
  }

  lemma HashChain(h: Digest, l: Login, salt: string, preset: string, personal: Bytes, builtIn: string)
    requires IsDigest(h)
    ensures var l' := l.(salt := salt, shared := None);
            AfterHash(h, l, salt, preset, personal, builtIn) ==
            if l.shared.Some? && l.shared.value != "" then
              l'.(password := h(l.shared.value + salt), source := SharedAb(l.shared.value), origin := Shared)
            else if l.password != [] then l'
            else if preset != "" then l'.(password := h(preset + salt), source := Undefined, origin := Preset)
            else if l.saved != [] then l'.(password := l.saved, source := Undefined, origin := l.savedOrigin)
            else if personal != [] then l'.(password := personal, source := PersonalAb(personal), origin := Personal)
            else if builtIn != "" then
              l'.(password := h(builtIn + salt), source := SharedAb(builtIn), origin := BuiltIn)
            else l'.(password := [], origin := NoPassword)
  {
    ChosenChain(h, l, salt, preset, personal, builtIn);
  }

  function AfterLoginFromUi(h: Digest, l: Login, typed: string, remember: bool): Login {
    if typed != "" then
      l.(password := h(typed + l.salt), source := Undefined, origin := Typed, remember := remember)
    else if l.password != [] then l
    else if l.saved != [] then l.(password := l.saved, source := Undefined, origin := l.savedOrigin)
    else l
  }

  function AfterPeerInfo(h: Digest, l: Login): Login {
    if l.remember then
      if l.password != [] && l.password != l.saved && !IsSharedAb(h, l.source, l.password, l.salt)
      then l.(saved := l.password, savedOrigin := l.origin)
      else l
    else if IsPersonalAb(l.source, l.password) then l.(saved := l.password, savedOrigin := l.origin)
    else if l.saved != [] then l.(saved := [], savedOrigin := NoPassword)
    else l
  }

  /** What is offered to the user's own address book after a login: the saved password, if it may be. */
  function Offered(h: Digest, l: Login): Option<Bytes> {
    if l.saved != [] && !IsSharedAb(h, l.source, l.password, l.salt) && !IsPersonalAb(l.source, l.password)
    then Some(l.saved)
    else None
  }

  function AfterInitialize(l: Login, shared: Option<string>, token: Option<Token>, freshId: nat): Login {
    var l' := l.(remember := l.saved != [], shared := shared);
    if token.Some? then
      l'.(password := token.value.password, source := token.value.source, origin := token.value.origin,
          sessionId := if token.value.sessionId == 0 then freshId else token.value.sessionId)
    else l'.(sessionId := freshId)
  }

  function Next(h: Digest, l: Login, e: Event): Login {
    match e
    case Initialize(shared, token, freshId) => AfterInitialize(l, shared, token, freshId)
    case HashFrom(salt, preset, personal, builtIn) => AfterHash(h, l, salt, preset, personal, builtIn)
    case SwitchSides(salt) => l.(salt := salt, source := Undefined)
    case WrongPassword => l.(password := [], origin := NoPassword)
    case OtherError => l
    case LoginFromUi(typed, remember) => AfterLoginFromUi(h, l, typed, remember)
    case PeerInfo => AfterPeerInfo(h, l)
  }

  function GetConnToken(l: Login): Option<Token> {
    if l.password == [] then None else Some(Token(l.password, l.source, l.sessionId, l.origin))
  }

  // ---- what every run keeps ----

  /** A password of foreign origin is recognised as such: its source repeats the digest. */
  ghost predicate Recognised(h: Digest, password: Bytes, source: Source, origin: Origin, salt: string) {
    password != [] && IsForeign(origin) ==> IsSharedAb(h, source, password, salt)
  }

  /** No password of foreign origin is saved. */
  ghost predicate Keeps(h: Digest, l: Login) {
    Recognised(h, l.password, l.source, l.origin, l.salt) && !IsForeign(l.savedOrigin)
  }

  /** Tokens were issued in this run or an earlier one that kept the same rules for the same salt. */
  ghost predicate Issued(h: Digest, t: Token, salt: string) {
    exists l: Login :: Keeps(h, l) && l.salt == salt && GetConnToken(l) == Some(t)
  }

  /** One peer with a fixed salt, and no exchange of the two sides. */
  ghost predicate IsPlain(h: Digest, e: Event, salt: string) {
    match e
    case HashFrom(s, _, _, _) => s == salt
    case SwitchSides(_) => false
    case Initialize(_, token, _) => token.Some? ==> Issued(h, token.value, salt)
    case _ => true
  }

  ghost function Run(h: Digest, l: Login, events: seq<Event>): Login
    decreases |events|
  {
    if events == [] then l else Run(h, Next(h, l, events[0]), events[1..])
  }

  lemma FirstPasswordRecognised(h: Digest, l: Login, e: Event)
    requires IsDigest(h) && Keeps(h, l) && e.HashFrom? && e.salt == l.salt
    ensures Keeps(h, Next(h, l, e))
  {
    HashChain(h, l, e.salt, e.preset, e.personal, e.builtIn);
  }

  lemma StepKeeps(h: Digest, l: Login, e: Event)
    requires IsDigest(h) && Keeps(h, l) && IsPlain(h, e, l.salt)
    ensures Keeps(h, Next(h, l, e)) && Next(h, l, e).salt == l.salt
  {
    if e.HashFrom? {
      FirstPasswordRecognised(h, l, e);
    }
  }

  /**
    * In every run against one salt and without switching sides, whatever the order of the events and whichever
    * tokens are carried over, a shared or built-in password is recognised and never saved.
    */
  lemma {:induction false} RunKeeps(h: Digest, l: Login, events: seq<Event>)
    requires IsDigest(h) && Keeps(h, l)
    requires forall e | e in events :: IsPlain(h, e, l.salt)
    ensures Keeps(h, Run(h, l, events)) && Run(h, l, events).salt == l.salt
    decreases |events|
  {
    if events != [] {
      StepKeeps(h, l, events[0]);
      RunKeeps(h, Next(h, l, events[0]), events[1..]);
    }
  }

  /** The first salt may be any: before it there is no password to recognise. */
  lemma FirstHashKeeps(h: Digest, l: Login, e: Event)
    requires IsDigest(h) && e.HashFrom? && l.password == [] && !IsForeign(l.savedOrigin)
    ensures Keeps(h, Next(h, l, e))
  {
    FirstPasswordRecognised(h, l.(salt := e.salt), e);
  }

  /** What is offered to the address book was never foreign either. */
  lemma OfferedIsOwn(h: Digest, l: Login)
    requires Keeps(h, l)
    ensures Offered(h, l).Some? ==>
              Offered(h, l).value == l.saved && !IsForeign(l.savedOrigin)
              && !(l.password != [] && IsForeign(l.origin))
  {
  }

  /** Peer info with a foreign password leaves a remembered password alone and forgets one that is not to be. */
  lemma PeerInfoWithForeign(h: Digest, l: Login)
    requires Keeps(h, l) && l.password != [] && IsForeign(l.origin)
    ensures AfterPeerInfo(h, l).saved == if l.remember then l.saved else []
    ensures Offered(h, AfterPeerInfo(h, l)) == None
  {
  }

  /** The token of one session gives the next one the same password from the same source. */
  lemma ReconnectKeeps(h: Digest, l: Login, next: Login, freshId: nat)
    requires IsDigest(h) && Keeps(h, l) && Keeps(h, next) && next.salt == l.salt && l.password != []
    ensures var e := Initialize(None, GetConnToken(l), freshId);
            var l' := Next(h, next, e);
            && IsPlain(h, e, l.salt) && Keeps(h, l')
            && l'.password == l.password && l'.source == l.source
            && (l.sessionId != 0 ==> l'.sessionId == l.sessionId)
  {
    var e := Initialize(None, GetConnToken(l), freshId);
    assert Issued(h, GetConnToken(l).value, l.salt);
    StepKeeps(h, next, e);
  }

  // ---- what becomes of the user's own passwords ----

  lemma {:induction false} RunAppend(h: Digest, l: Login, events: seq<Event>, e: Event)
    ensures Run(h, l, events + [e]) == Next(h, Run(h, l, events), e)
    decreases |events|
  {
    if events == [] {
      assert (events + [e])[1..] == [];
    } else {
      assert (events + [e])[1..] == events[1..] + [e];
      RunAppend(h, Next(h, l, events[0]), events[1..], e);
    }
  }

  /** What peer info saves, by the source of the password. */
  lemma SavedByPeerInfo(h: Digest, l: Login)
    ensures var l' := AfterPeerInfo(h, l);
            && l' == l.(saved := l'.saved, savedOrigin := l'.savedOrigin)
            && (l'.saved != l.saved ==> l'.savedOrigin == if l'.saved == [] then NoPassword else l.origin)
            && (l.remember && l.password == [] ==> l'.saved == l.saved)
            && (l.remember && l.password != [] ==>
                  match l.source
                  case SharedAb(p) => l'.saved == if h(p + l.salt) == l.password then l.saved else l.password
                  case _ => l'.saved == l.password)
            && (!l.remember && l.password == [] ==> l'.saved == [])
            && (!l.remember && l.password != [] ==>
                  match l.source
                  case PersonalAb(hash) => l'.saved == if hash == l.password then l.password else []
                  case _ => l'.saved == [])
  {
  }

  /** Events after which a password at hand is still the one that is used. */
  predicate LeavesPassword(e: Event, salt: string) {
    e == OtherError || (e.HashFrom? && e.salt == salt)
  }

  lemma {:induction false} PasswordStays(h: Digest, l: Login, events: seq<Event>)
    requires IsDigest(h) && l.password != [] && (l.shared.None? || l.shared.value == "")
    requires forall e | e in events :: LeavesPassword(e, l.salt)
    ensures var l' := Run(h, l, events);
            l'.shared in {l.shared, None} && l' == l.(shared := l'.shared)
    decreases |events|
  {
    if events != [] {
      var e := events[0];
      assert LeavesPassword(e, l.salt);
      if e.HashFrom? {
        HashChain(h, l, e.salt, e.preset, e.personal, e.builtIn);
      }
      PasswordStays(h, Next(h, l, e), events[1..]);
    }
  }

  /**
    * A typed password, hashed with the salt, is what a successful login saves and offers if it is to be remembered;
    * if not, the login leaves no saved password. Further greetings of the peer and other errors in between, such as
    * a request for a second factor, change nothing about that.
    */
  lemma TypedIsSaved(h: Digest, l: Login, typed: string, remember: bool, between: seq<Event>)
    requires IsDigest(h) && typed != "" && (l.shared.None? || l.shared.value == "")
    requires forall e | e in between :: LeavesPassword(e, l.salt)
    ensures var end := Run(h, l, [LoginFromUi(typed, remember)] + between + [PeerInfo]);
            && end.password == h(typed + l.salt)
            && end.saved == (if remember then h(typed + l.salt) else [])
            && Offered(h, end) == (if remember then Some(h(typed + l.salt)) else None)
  {
    var e := LoginFromUi(typed, remember);
    PasswordStays(h, Next(h, l, e), between);
    assert ([e] + between)[1..] == between;
    RunAppend(h, l, [e] + between, PeerInfo);
    SavedByPeerInfo(h, Run(h, l, [e] + between));
  }

  /** An empty answer to a wrong password falls back on the saved one, as the user's own. */
  lemma EmptyAnswer(h: Digest, l: Login, remember: bool)
    ensures var end := Run(h, l, [WrongPassword, LoginFromUi("", remember)]);
            && end.password == l.saved && end.remember == l.remember && end.saved == l.saved
            && end.source == if l.saved == [] then l.source else Undefined
  {
    var e := LoginFromUi("", remember);
    assert [WrongPassword, e] == [WrongPassword] + [e] && [WrongPassword] == [] + [WrongPassword];
    RunAppend(h, l, [WrongPassword], e);
    RunAppend(h, l, [], WrongPassword);
  }

  /**
    * A first session without a password of its own: one from the personal address book is saved and not offered
    * again, a preset one is neither saved nor offered.
    */
  lemma FirstLogin(h: Digest, l: Login, freshId: nat, e: Event)
    requires IsDigest(h) && l.password == [] && l.saved == [] && e.HashFrom?
    ensures var end := Run(h, l, [Initialize(None, None, freshId), e, PeerInfo]);
            && Offered(h, end) == None
            && end.password == (if e.preset != "" then h(e.preset + e.salt) else if e.personal != [] then e.personal
                                else if e.builtIn != "" then h(e.builtIn + e.salt) else [])
            && end.saved == (if e.preset != "" then [] else e.personal)
  {
    var e0 := Initialize(None, None, freshId);
    assert [e0, e, PeerInfo] == [e0, e] + [PeerInfo] && [e0, e] == [e0] + [e] && [e0] == [] + [e0];
    RunAppend(h, l, [e0, e], PeerInfo);
    RunAppend(h, l, [e0], e);
    RunAppend(h, l, [], e0);
    HashChain(h, Next(h, l, e0), e.salt, e.preset, e.personal, e.builtIn);
    SavedByPeerInfo(h, Run(h, l, [e0, e]));
  }

  // ---- exactly when a change of salt or side is harmless ----

  /** A new salt for a kept shared password: it stays recognised just when the digests agree. */
  lemma NewSalt(h: Digest, l: Login, e: Event)
    requires IsDigest(h) && Keeps(h, l) && e.HashFrom?
    requires l.password != [] && IsForeign(l.origin) && (l.shared.None? || l.shared.value == "")
    ensures Keeps(h, Next(h, l, e)) <==> h(l.source.password + e.salt) == h(l.source.password + l.salt)
  {
    HashChain(h, l, e.salt, e.preset, e.personal, e.builtIn);
  }

  /** Switching sides forgets the source: that is harmless just when no foreign password is held. */
  lemma SwitchedSides(h: Digest, l: Login, salt: string)
    requires Keeps(h, l)
    ensures Keeps(h, Next(h, l, SwitchSides(salt))) <==> !(l.password != [] && IsForeign(l.origin))
  {
  }

  /** A remembered peer that changes its salt between two greetings gets a shared password saved. */
  lemma NewSaltLeaks(h: Digest, l: Login, p: string, salt1: string, salt2: string) returns (events: seq<Event>)
    requires IsDigest(h) && p != "" && l.saved != [] && l.password == [] && !IsForeign(l.savedOrigin)
    requires h(p + salt1) != h(p + salt2) && h(p + salt1) != l.saved
    ensures var end := Run(h, l, events);
            end.saved == h(p + salt1) && IsForeign(end.savedOrigin)
  {
    var e1 := Initialize(Some(p), None, 1);
    var e2 := HashFrom(salt1, "", [], "");
    var e3 := HashFrom(salt2, "", [], "");
    events := [e1, e2, e3, PeerInfo];
    var l1 := Next(h, l, e1);
    HashChain(h, l1, salt1, "", [], "");
    var l2 := Next(h, l1, e2);
    assert l2.password == h(p + salt1) && l2.source == SharedAb(p) && l2.origin == Shared && l2.shared == None;
    KeptThrough(h, l2, salt2);
    var l3 := Next(h, l2, e3);
    LeaksAt(h, l3, p);
    RunOfFour(h, l, events);
  }

  lemma KeptThrough(h: Digest, l: Login, salt: string)
    requires IsDigest(h) && l.password != [] && l.shared.None?
    ensures Next(h, l, HashFrom(salt, "", [], "")) == l.(salt := salt)
  {
    HashChain(h, l, salt, "", [], "");
  }

  lemma LeaksAt(h: Digest, l: Login, p: string)
    requires l.remember && l.source == SharedAb(p) && l.origin == Shared
    requires l.password != [] && l.password != l.saved && h(p + l.salt) != l.password
    ensures Next(h, l, PeerInfo) == l.(saved := l.password, savedOrigin := Shared)
  {
  }

  lemma RunOfFour(h: Digest, l: Login, e: seq<Event>)
    requires |e| == 4
    ensures Run(h, l, e) == Next(h, Next(h, Next(h, Next(h, l, e[0]), e[1]), e[2]), e[3])
  {
    var l1 := Next(h, l, e[0]);
    var l2 := Next(h, l1, e[1]);
    var l3 := Next(h, l2, e[2]);
    assert e[3..][1..] == [] && Run(h, l3, e[3..]) == Next(h, l3, e[3]);
    assert e[2..][1..] == e[3..] && Run(h, l2, e[2..]) == Next(h, l3, e[3]);
    assert e[1..][1..] == e[2..] && Run(h, l1, e[1..]) == Next(h, l3, e[3]);
  }

  // ---- the handler itself ----

  /** The configuration handler of one session, with the peer's saved configuration. */
  class LoginConfigHandler {
    const digest: Digest
    var password: Bytes
    var passwordSource: Source
    var sharedPassword: Option<string>
    var hashSalt: string
    var remember: bool
    var configPassword: Bytes
    var sessionId: nat
    ghost var origin: Origin
    ghost var savedOrigin: Origin

    ghost function View(): Login
      reads this
    {
      Login(password, passwordSource, sharedPassword, hashSalt, remember, configPassword, origin, savedOrigin,
            sessionId)
    }

    constructor (digest: Digest, configPassword: Bytes, ghost savedOrigin: Origin)
      ensures this.digest == digest
      ensures View() == Login([], Undefined, None, "", false, configPassword, NoPassword, savedOrigin, 0)
    {
      this.digest := digest;
      password, passwordSource, sharedPassword, hashSalt := [], Undefined, None, "";
      remember, sessionId := false, 0;
      this.configPassword := configPassword;
      origin, this.savedOrigin := NoPassword, savedOrigin;
    }

    method Initialize(shared: Option<string>, connToken: Option<Token>, freshId: nat)
      modifies this
      ensures View() == AfterInitialize(old(View()), shared, connToken, freshId)
      ensures remember == (configPassword != []) && sharedPassword == shared
      ensures connToken.None? ==>
                password == old(password) && passwordSource == old(passwordSource) && sessionId == freshId
      ensures connToken.Some? ==>
                && password == connToken.value.password && passwordSource == connToken.value.source
                && sessionId == if connToken.value.sessionId == 0 then freshId else connToken.value.sessionId
      ensures unchanged(`hashSalt, `configPassword, `savedOrigin)
    {
      remember := configPassword != [];
      var sid := 0;
      if connToken.Some? {
        sid := connToken.value.sessionId;
        password := connToken.value.password;
        passwordSource := connToken.value.source;
        origin := connToken.value.origin;
      }
      if sid == 0 {
        sid := freshId;
      }
      sessionId := sid;
      sharedPassword := shared;
    }

    /** Applies the passwords that are at hand in their order of precedence. */
    method HandleHash(salt: string, preset: string, personal: Bytes, builtIn: string)
      requires IsDigest(digest)
      modifies this
      ensures View() == AfterHash(digest, old(View()), salt, preset, personal, builtIn)
    {
      HashChain(digest, View(), salt, preset, personal, builtIn);
      hashSalt := salt;
      var pw := password;
      if pw == [] {
        if preset != "" {
          pw := digest(preset + salt);
          passwordSource := Undefined;
          origin := Preset;
        }
      }
      var shared := sharedPassword;
      sharedPassword := None;
      if shared.Some? {
        if shared.value != "" {
          pw := digest(shared.value + salt);
          passwordSource := SharedAb(shared.value);
          origin := Shared;
        }
      }
      if pw == [] {
        pw := configPassword;
        if pw != [] {
          passwordSource := Undefined;
          origin := savedOrigin;
        }
      }
      if pw == [] {
        if personal != [] {
          pw := personal;
          passwordSource := PersonalAb(personal);
          origin := Personal;
        }
      }
      if pw == [] {
        if builtIn != "" {
          pw := digest(builtIn + salt);
          passwordSource := SharedAb(builtIn);
          origin := BuiltIn;
        }
      }
      password := pw;
      if pw == [] {
        origin := NoPassword;
      }
    }

    method HandleLoginError(wrongPassword: bool)
      modifies this
      ensures View() == Next(digest, old(View()), if wrongPassword then WrongPassword else OtherError)
      ensures password == if wrongPassword then [] else old(password)
    {
      if wrongPassword {
        password := [];
        origin := NoPassword;
      }
    }

    method HandleLoginFromUi(typed: string, remember: bool)
      modifies this
      ensures View() == AfterLoginFromUi(digest, old(View()), typed, remember)
      ensures typed != "" ==>
                password == digest(typed + hashSalt) && passwordSource == Undefined && this.remember == remember
      ensures typed == "" ==>
                this.remember == old(this.remember)
                && if old(password) != [] || configPassword == [] then
                  password == old(password) && passwordSource == old(passwordSource)
                else
                  password == configPassword && passwordSource == Undefined
      ensures unchanged(`sharedPassword, `hashSalt, `configPassword, `savedOrigin, `sessionId)
    {
      if typed == "" {
        var password2 := password;
        if password2 == [] {
          password2 := configPassword;
          if password2 != [] {
            passwordSource := Undefined;
            origin := savedOrigin;
          }
        }
        password := password2;
      } else {
        passwordSource := Undefined;
        origin := Typed;
        password := digest(typed + hashSalt);
        this.remember := remember;
      }
    }

    /** Updates the saved password; returns what is offered to the address book. */
    method HandlePeerInfo() returns (offer: Option<Bytes>)
      modifies this
      ensures View() == AfterPeerInfo(digest, old(View()))
      ensures offer == Offered(digest, View())
      ensures offer.Some? ==> offer.value == configPassword
      ensures offer.None? <==>
                || configPassword == []
                || (password != [] && match passwordSource
                                      case SharedAb(p) => digest(p + hashSalt) == password
                                      case PersonalAb(hash) => hash == password
                                      case Undefined => false)
    {
      var password0 := configPassword;
      if remember {
        if password != [] && password != password0 && !IsSharedAb(digest, passwordSource, password, hashSalt) {
          configPassword := password;
          savedOrigin := origin;
        }
      } else {
        if IsPersonalAb(passwordSource, password) {
          configPassword := password;
          savedOrigin := origin;
        } else if password0 != [] {
          configPassword := [];
          savedOrigin := NoPassword;
        }
      }
      offer := None;
      if configPassword != [] && !IsSharedAb(digest, passwordSource, password, hashSalt)
         && !IsPersonalAb(passwordSource, password) {
        offer := Some(configPassword);
      }
    }
  }
}
