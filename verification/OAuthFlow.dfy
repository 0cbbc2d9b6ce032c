/** The authorization code flow: codes are short-lived and used once, tokens trace back to one consent. */
module OAuthFlow {
  import opened Common
  import opened Sequences

  // ---------------------------------------------------------------------
  // Scope lists as stored text
  // ---------------------------------------------------------------------

  /** White space of the Unicode standard. */
  predicate Space(c: char) {
    || c == ' ' || '\t' <= c <= '\r' || c == '\U{0085}' || c == '\U{00A0}' || c == '\U{1680}'
    || '\U{2000}' <= c <= '\U{200A}' || c == '\U{2028}' || c == '\U{2029}' || c == '\U{202F}' || c == '\U{205F}'
    || c == '\U{3000}'
  }

  /** Scopes joined by single spaces. */
  function JoinScopes(scopes: seq<string>): string {
    if scopes == [] then ""
    else if |scopes| == 1 then scopes[0]
    else scopes[0] + " " + JoinScopes(scopes[1..])
  }

  /** One space between any two parts, none at the ends. */
  lemma {:induction false} JoinConcat(a: seq<string>, b: seq<string>)
    requires a != [] && b != []
    ensures JoinScopes(a + b) == JoinScopes(a) + " " + JoinScopes(b)
  {
    TailOfConcat(a, b);
    if |a| == 1 {
      assert a[1..] + b == b;
    } else {
      JoinConcat(a[1..], b);
      ConcatAssoc(a[0] + " ", JoinScopes(a[1..]), " " + JoinScopes(b));
      ConcatAssoc(JoinScopes(a[1..]), " ", JoinScopes(b));
      ConcatAssoc(a[0] + " " + JoinScopes(a[1..]), " ", JoinScopes(b));
    }
  }

  /** Length of the word a text starts with. */
  function WordLength(s: string): (n: nat)
    ensures n <= |s| && (n < |s| ==> Space(s[n])) && forall i :: 0 <= i < n ==> !Space(s[i])
  {
    if s == "" || Space(s[0]) then 0 else 1 + WordLength(s[1..])
  }

  /** The words of a text between runs of spaces. */
  function Fields(s: string): seq<string>
    decreases |s|
  {
    if s == "" then []
    else if Space(s[0]) then Fields(s[1..])
    else
      var n := WordLength(s);
      [s[..n]] + Fields(s[n..])
  }

  predicate Word(w: string) { w != "" && forall i :: 0 <= i < |w| ==> !Space(w[i]) }

  ghost predicate Words(ws: seq<string>) { forall i :: 0 <= i < |ws| ==> Word(ws[i]) }

  lemma {:induction false} FieldsAreWords(s: string)
    ensures Words(Fields(s))
    decreases |s|
  {
    if s != "" {
      if Space(s[0]) {
        FieldsAreWords(s[1..]);
      } else {
        FieldsAreWords(s[WordLength(s)..]);
      }
    }
  }

  lemma {:induction false} WordFirst(w: string, rest: string)
    requires Word(w) && (rest == "" || Space(rest[0]))
    ensures Fields(w + rest) == [w] + Fields(rest)
  {
    var s := w + rest;
    var n := WordLength(s);
    assert forall i :: 0 <= i < |w| ==> s[i] == w[i] && !Space(s[i]);
    assert rest != "" ==> s[|w|] == rest[0] && Space(s[|w|]);
    assert n == |w|;
    ConcatSlices(w, rest);
    assert s[0] == w[0];
  }

  lemma {:induction false} FieldsOfJoin(ws: seq<string>)
    requires Words(ws)
    ensures Fields(JoinScopes(ws)) == ws
  {
    if ws != [] {
      FieldsOfJoin(ws[1..]);
      if |ws| == 1 {
        WordFirst(ws[0], "");
        assert ws[0] + "" == ws[0] && ws == [ws[0]];
      } else {
        var rest := " " + JoinScopes(ws[1..]);
        WordFirst(ws[0], rest);
        assert rest[1..] == JoinScopes(ws[1..]);
        ConcatAssoc(ws[0], " ", JoinScopes(ws[1..]));
        assert ws == [ws[0]] + ws[1..];
      }
    }
  }

  /** Scopes survive storage exactly when each is a nonempty word without spaces. */
  lemma ScopesRoundTrip(ws: seq<string>)
    ensures Fields(JoinScopes(ws)) == ws <==> Words(ws)
  {
    FieldsAreWords(JoinScopes(ws));
    if Words(ws) {
      FieldsOfJoin(ws);
    }
  }

  // ---------------------------------------------------------------------
  // Tables and their history
  // ---------------------------------------------------------------------

  /** Stored hashes; distinct secrets have distinct hashes. */
  datatype Digest = Digest(secret: string)

  function Hash(s: string): Digest { Digest(s) }

  datatype App = App(id: int, secretHash: Digest)

  datatype CodeRow = CodeRow(app: int, user: int, redirect: string, scopes: string, expires: int)

  datatype TokenRow = TokenRow(app: int, user: int, scopes: string, expires: int)

  datatype Error = InvalidClient | InvalidGrant | StoreFailure

  /** One `IssueCode` call. */
  datatype Grant = Grant(app: int, user: int, redirect: string, scopes: string, at: int)

  /** One token handed out: for which code, to which authenticated app, when. */
  datatype Mint = Mint(code: string, client: int, user: int, scopes: string, at: int)

  /** Times are in nanoseconds. */
  const SECOND := 1_000_000_000
  const TEN_MINUTES := 10 * 60 * SECOND
  const ONE_YEAR := 365 * 24 * 3600 * SECOND

  function CodeRowOf(g: Grant): CodeRow {
    CodeRow(g.app, g.user, g.redirect, g.scopes, g.at + TEN_MINUTES)
  }

  function TokenRowOf(m: Mint): TokenRow {
    TokenRow(m.client, m.user, m.scopes, m.at + ONE_YEAR)
  }

  /** A token answers one grant: same app, user and scopes, no more than ten minutes later. */
  ghost predicate Answers(m: Mint, issued: map<string, Grant>) {
    && m.code in issued
    && var g := issued[m.code];
       m.client == g.app && m.user == g.user && m.scopes == g.scopes && g.at <= m.at <= g.at + TEN_MINUTES
  }

  ghost predicate OneTokenPerCode(minted: map<string, Mint>) {
    forall s, t :: s in minted && t in minted && minted[s].code == minted[t].code ==> s == t
  }

  /** Stored codes are exactly the issued ones that are not used up. */
  ghost predicate CodesSound(codes: map<Digest, CodeRow>, issued: map<string, Grant>, spent: set<string>) {
    && (forall d :: d in codes <==> d.secret in issued && d.secret !in spent)
    && (forall d :: d in codes ==> codes[d] == CodeRowOf(issued[d.secret]))
    && (forall c :: c in spent ==> c in issued)
  }

  /** Stored tokens are exactly the handed out ones that were not revoked. */
  ghost predicate TokensSound(tokens: map<Digest, TokenRow>, minted: map<string, Mint>, revoked: set<string>) {
    && (forall d :: d in tokens <==> d.secret in minted && d.secret !in revoked)
    && (forall d :: d in tokens ==> tokens[d] == TokenRowOf(minted[d.secret]))
    && (forall t :: t in revoked ==> t in minted)
  }

  /** Every token answers its grant and has used up its code, which no other token has. */
  ghost predicate MintsSound(minted: map<string, Mint>, issued: map<string, Grant>, spent: set<string>) {
    && (forall t :: t in minted ==> Answers(minted[t], issued) && minted[t].code in spent)
    && OneTokenPerCode(minted)
  }

  lemma IssueKeeps(codes: map<Digest, CodeRow>, issued: map<string, Grant>, minted: map<string, Mint>,
                   spent: set<string>, code: string, g: Grant)
    requires CodesSound(codes, issued, spent) && MintsSound(minted, issued, spent) && code !in issued
    ensures CodesSound(codes[Hash(code) := CodeRowOf(g)], issued[code := g], spent)
    ensures MintsSound(minted, issued[code := g], spent)
  {
    assert forall t :: t in minted ==> minted[t].code in issued;
    assert forall d: Digest :: d == Hash(code) <==> d.secret == code;
  }

  lemma ConsumeKeeps(codes: map<Digest, CodeRow>, issued: map<string, Grant>, minted: map<string, Mint>,
                     spent: set<string>, code: string)
    requires CodesSound(codes, issued, spent) && MintsSound(minted, issued, spent) && Hash(code) in codes
    ensures CodesSound(codes - {Hash(code)}, issued, spent + {code}) && MintsSound(minted, issued, spent + {code})
  {
    assert forall d: Digest :: d == Hash(code) <==> d.secret == code;
  }

  lemma ExchangeKeeps(issued: map<string, Grant>, minted: map<string, Mint>, spent: set<string>,
                      tokens: map<Digest, TokenRow>, revoked: set<string>, access: string, m: Mint)
    requires MintsSound(minted, issued, spent) && TokensSound(tokens, minted, revoked)
    requires m.code !in spent && access !in minted && Answers(m, issued)
    ensures MintsSound(minted[access := m], issued, spent + {m.code})
    ensures TokensSound(tokens[Hash(access) := TokenRowOf(m)], minted[access := m], revoked)
  {
    assert forall t :: t in minted ==> minted[t].code != m.code;
    assert forall d: Digest :: d == Hash(access) <==> d.secret == access;
  }

  /** The tokens of one user for one app. */
  function TokensOf(tokens: map<Digest, TokenRow>, user: int, app: int): set<Digest> {
    set d | d in tokens && tokens[d].user == user && tokens[d].app == app
  }

  /** The tokens ever handed out for one user and app. */
  ghost function MintedFor(minted: map<string, Mint>, user: int, app: int): set<string> {
    set t | t in minted && minted[t].user == user && minted[t].client == app
  }

  lemma RevokeKeeps(tokens: map<Digest, TokenRow>, minted: map<string, Mint>, revoked: set<string>, user: int, app: int)
    requires TokensSound(tokens, minted, revoked)
    ensures TokensSound(tokens - TokensOf(tokens, user, app), minted, revoked + MintedFor(minted, user, app))
  {
    var gone, all := TokensOf(tokens, user, app), MintedFor(minted, user, app);
    forall d | d in tokens ensures d in gone <==> d.secret in all {
      assert tokens[d] == TokenRowOf(minted[d.secret]);
    }
  }

  class Provider {
    const apps: map<string, App>
    var codes: map<Digest, CodeRow>
    var tokens: map<Digest, TokenRow>
    var consents: map<(int, int), string>

    // every code ever issued and used up, every token ever handed out and revoked
    ghost var issued: map<string, Grant>
    ghost var spent: set<string>
    ghost var minted: map<string, Mint>
    ghost var revoked: set<string>
    ghost var clock: int

    ghost predicate Valid()
      reads this
    {
      && (forall c :: c in issued ==> issued[c].at <= clock)
      && CodesSound(codes, issued, spent) && TokensSound(tokens, minted, revoked) && MintsSound(minted, issued, spent)
    }

    constructor (apps: map<string, App>)
      ensures Valid() && this.apps == apps && issued == map[] && spent == {} && minted == map[] && revoked == {}
    {
      this.apps := apps;
      codes, tokens, consents := map[], map[], map[];
      issued, spent, minted, revoked, clock := map[], {}, map[], {}, 0;
    }

    /** `code` is the random identifier; `storeOk` says whether the transaction commits. */
    method IssueCode(app: int, user: int, redirect: string, scopes: seq<string>, code: string, storeOk: bool, now: int)
      returns (r: Result<string, Error>)
      requires Valid() && clock <= now && code !in issued
      modifies this
      ensures Valid() && clock == now && tokens == old(tokens)
      ensures spent == old(spent) && minted == old(minted) && revoked == old(revoked)
      ensures !storeOk ==> r == Err(StoreFailure) &&
                           issued == old(issued) && codes == old(codes) && consents == old(consents)
      ensures storeOk ==> var g := Grant(app, user, redirect, JoinScopes(scopes), now);
                          && r == Ok(code)
                          && issued == old(issued)[code := g]
                          && codes == old(codes)[Hash(code) := CodeRowOf(g)]
                          && consents == old(consents)[(user, app) := g.scopes]
    {
      clock := now;
      if !storeOk {
        return Err(StoreFailure);
      }
      var text := JoinScopes(scopes);
      IssueKeeps(codes, issued, minted, spent, code, Grant(app, user, redirect, text, now));
      codes := codes[Hash(code) := CodeRow(app, user, redirect, text, now + TEN_MINUTES)];
      consents := consents[(user, app) := text];
      issued := issued[code := Grant(app, user, redirect, text, now)];
      r := Ok(code);
    }

    function VerifyClient(clientID: string, secret: string): Result<int, Error> {
      if clientID in apps && apps[clientID].secretHash == Hash(secret) then Ok(apps[clientID].id)
      else Err(InvalidClient)
    }

    /** The client is registered and the secret is its own. */
    ghost predicate RightSecret(clientID: string, secret: string) {
      clientID in apps && apps[clientID].secretHash == Digest(secret)
    }

    /** What the history must say for an exchange to pass the checks. */
    ghost predicate Exchangeable(clientID: string, secret: string, code: string, redirectURI: string, now: int)
      reads this
    {
      && RightSecret(clientID, secret)
      && code in issued && code !in spent
      && var g := issued[code];
         && g.app == apps[clientID].id
         && now <= g.at + TEN_MINUTES
         && (redirectURI == "" || redirectURI == g.redirect)
    }

    /** The code is used up: by a passing exchange, or because its own app came too late. */
    ghost predicate UsesUp(clientID: string, secret: string, code: string, redirectURI: string, now: int)
      reads this
    {
      || Exchangeable(clientID, secret, code, redirectURI, now)
      || (&& RightSecret(clientID, secret) && code in issued && code !in spent
          && issued[code].app == apps[clientID].id && now > issued[code].at + TEN_MINUTES)
    }

    /** `access` is the random token; `storeOk` says whether generating and inserting it succeeds. */
    method ExchangeCode(clientID: string, secret: string, code: string, redirectURI: string,
                        access: string, storeOk: bool, now: int)
      returns (r: Result<string, Error>)
      requires Valid() && clock <= now && access !in minted
      modifies this
      ensures Valid() && clock == now && issued == old(issued) && revoked == old(revoked) && consents == old(consents)
      ensures r.Ok? <==> old(Exchangeable(clientID, secret, code, redirectURI, now)) && storeOk
      ensures spent == old(spent) + if old(UsesUp(clientID, secret, code, redirectURI, now)) then {code} else {}
      ensures r.Ok? ==> r == Ok(access) && HandedOut(old(minted), old(tokens), code, access)
      ensures r.Err? ==> minted == old(minted) && tokens == old(tokens)
      ensures !RightSecret(clientID, secret) ==> r == Err(InvalidClient) && codes == old(codes)
      ensures RightSecret(clientID, secret) && !old(Exchangeable(clientID, secret, code, redirectURI, now)) ==>
                r == Err(InvalidGrant)
      ensures old(Exchangeable(clientID, secret, code, redirectURI, now)) && !storeOk ==> r == Err(StoreFailure)
    {
      clock := now;
      var client := VerifyClient(clientID, secret);
      if client.Err? {
        return Err(client.error);
      }
      if Hash(code) !in codes {
        return Err(InvalidGrant);
      }
      var row := codes[Hash(code)];
      if client.value != row.app {
        return Err(InvalidGrant);
      }
      if now > row.expires {
        Consume(code);
        return Err(InvalidGrant);
      }
      if redirectURI != "" && redirectURI != row.redirect {
        return Err(InvalidGrant);
      }
      r := Redeem(code, access, storeOk, now);
    }

    /** The token is stored for the grant behind the code, and nothing else changed. */
    ghost predicate HandedOut(minted0: map<string, Mint>, tokens0: map<Digest, TokenRow>, code: string, access: string)
      reads this
    {
      && code in issued
      && var m := Mint(code, issued[code].app, issued[code].user, issued[code].scopes, clock);
         minted == minted0[access := m] && tokens == tokens0[Hash(access) := TokenRowOf(m)]
    }

    /** Deletes a stored code. */
    method Consume(code: string)
      requires Valid() && Hash(code) in codes
      modifies this`codes, this`spent
      ensures Valid() && spent == old(spent) + {code} && codes == old(codes) - {Hash(code)}
    {
      ConsumeKeeps(codes, issued, minted, spent, code);
      codes := codes - {Hash(code)};
      spent := spent + {code};
    }

    /** Uses up a code that passed the checks and hands out its token. */
    method Redeem(code: string, access: string, storeOk: bool, now: int) returns (r: Result<string, Error>)
      requires Valid() && clock == now && access !in minted && Hash(code) in codes && now <= codes[Hash(code)].expires
      modifies this`codes, this`spent, this`tokens, this`minted
      ensures Valid() && spent == old(spent) + {code}
      ensures r == if storeOk then Ok(access) else Err(StoreFailure)
      ensures !storeOk ==> tokens == old(tokens) && minted == old(minted)
      ensures storeOk ==> HandedOut(old(minted), old(tokens), code, access)
    {
      var row := codes[Hash(code)];
      ghost var m := Mint(code, row.app, row.user, row.scopes, now);
      assert Answers(m, issued);
      ExchangeKeeps(issued, minted, spent, tokens, revoked, access, m);
      Consume(code);
      if !storeOk {
        return Err(StoreFailure);
      }
      tokens := tokens[Hash(access) := TokenRow(row.app, row.user, row.scopes, now + ONE_YEAR)];
      minted := minted[access := m];
      r := Ok(access);
    }

    /** Exactly the tokens that were handed out, are not revoked and not a year old resolve, to their grant. */
    method TokenUser(access: string, now: int) returns (r: Result<(int, seq<string>), Error>)
      requires Valid()
      ensures r.Ok? <==> access in minted && access !in revoked && now <= minted[access].at + ONE_YEAR
      ensures r.Err? ==> r.error == InvalidGrant
      ensures r.Ok? ==> var m := minted[access];
                        && Answers(m, issued)
                        && r.value.0 == issued[m.code].user && r.value.1 == Fields(issued[m.code].scopes)
    {
      if Hash(access) !in tokens {
        return Err(InvalidGrant);
      }
      var row := tokens[Hash(access)];
      if now > row.expires {
        return Err(InvalidGrant);
      }
      r := Ok((row.user, Fields(row.scopes)));
    }

    /** Every token handed out so far for the user and app is gone for good, and no other. */
    method RevokeAuthorization(user: int, app: int)
      requires Valid()
      modifies this
      ensures Valid() && clock == old(clock) && codes == old(codes)
      ensures issued == old(issued) && spent == old(spent) && minted == old(minted)
      ensures revoked == old(revoked) + MintedFor(old(minted), user, app)
      ensures consents == old(consents) - {(user, app)}
    {
      consents := consents - {(user, app)};
      RevokeKeeps(tokens, minted, revoked, user, app);
      revoked := revoked + MintedFor(minted, user, app);
      tokens := tokens - TokensOf(tokens, user, app);
    }
  }

  /** Whether and when the user revokes the consent for the app. */
  datatype Revocation = Never | BeforeExchange | AfterExchange

  /**
   A token handed out for a fresh code resolves to the user and scopes it was issued for. Revoking
   stops it exactly when it comes after the exchange: a code that is still out is not touched.
   */
  method GrantAndUse(p: Provider, clientID: string, secret: string, user: int, redirect: string, scopes: seq<string>,
                     code: string, access: string, issuedAt: int, exchangedAt: int, usedAt: int, when: Revocation)
    returns (r: Result<(int, seq<string>), Error>)
    requires p.Valid() && p.RightSecret(clientID, secret) && code !in p.issued && access !in p.minted
    requires p.clock <= issuedAt <= exchangedAt <= issuedAt + TEN_MINUTES
    requires exchangedAt <= usedAt <= exchangedAt + ONE_YEAR
    modifies p
    ensures r.Ok? <==> when != AfterExchange
    ensures r.Ok? ==> r.value.0 == user && (r.value.1 == scopes <==> Words(scopes))
  {
    var app := p.VerifyClient(clientID, secret).value;
    var issued := p.IssueCode(app, user, redirect, scopes, code, true, issuedAt);
    if when == BeforeExchange {
      p.RevokeAuthorization(user, app);
    }
    var token := p.ExchangeCode(clientID, secret, code, redirect, access, true, exchangedAt);
    if when == AfterExchange {
      p.RevokeAuthorization(user, app);
    }
    r := p.TokenUser(access, usedAt);
    ScopesRoundTrip(scopes);
  }
}
