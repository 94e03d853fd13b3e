/** A redemption: the secret, time-bounded access grant created when a code is used
    (src/Model/DLRedemption.php). Redemptions are never changed after creation, so a
    redemption is a value; the table that holds them lives in `Codes.Registry`. */
module Redemptions {
  import opened Common
  import opened Text
  import opened Encoding
  import opened Query

  const SecondsPerDay: int := 3600 * 24
  /** Default of the `validity_days` setting. */
  const DefaultValidityDays: int := 7
  /** Number of random bytes behind a secret. */
  const SecretBytes: nat := 32

  datatype Redemption = Redemption(id: nat, codeId: nat, secret: string, expires: int)

  /** The defaults a new redemption receives: a secret made of 32 random bytes written as
      hex, and an expiry `validityDays` days after `now`. `id` and `codeId` are the values
      the ORM assigns when the redemption is written and attached to its code. */
  function PopulateDefaults(id: nat, codeId: nat, random: seq<Byte>, now: int, validityDays: int): (r: Redemption)
    requires |random| == SecretBytes
    ensures r.id == id && r.codeId == codeId
    ensures |r.secret| == 64 && IsLowerHex(r.secret)
    ensures HexDecode(r.secret) == Some(random)
    ensures r.expires - now == SecondsPerDay * validityDays
  {
    HexRoundTrip(random);
    Redemption(id, codeId, HexEncode(random), now + SecondsPerDay * validityDays)
  }

  /** The redemption's code still exists and its expiry lies strictly after `now`. */
  predicate IsValid(r: Redemption, codeIds: set<nat>, now: int)
  {
    r.codeId in codeIds && r.expires > now
  }

  /** A redemption is valid exactly while its code exists and `now` is before its expiry;
      one expiring at `now` is already invalid. */
  lemma ValidityBoundary(r: Redemption, codeIds: set<nat>, now: int)
    ensures IsValid(r, codeIds, now) <==> r.codeId in codeIds && now < r.expires
    ensures r.expires <= now ==> !IsValid(r, codeIds, now)
    ensures r.codeId !in codeIds ==> !IsValid(r, codeIds, now)
  {
  }

  /** Validity, once lost as time passes, does not come back. */
  lemma ValidityLostForGood(r: Redemption, codeIds: set<nat>, t1: int, t2: int)
    requires t1 <= t2 && IsValid(r, codeIds, t2)
    ensures IsValid(r, codeIds, t1)
  {
  }

  /** A freshly populated redemption of an existing code is valid until its expiry exactly
      when the configured validity is positive. */
  lemma FreshRedemptionValid(id: nat, codeId: nat, random: seq<Byte>, now: int, validityDays: int, codeIds: set<nat>)
    requires |random| == SecretBytes && codeId in codeIds
    ensures IsValid(PopulateDefaults(id, codeId, random, now, validityDays), codeIds, now) <==> validityDays > 0
  {
  }

  /** The query suffix `?c=<code ID>&r=<ID>&s=<secret>` of the download link, or the
      empty string for an invalid redemption. */
  function UrlParamString(r: Redemption, codeIds: set<nat>, now: int): (s: string)
    ensures !IsValid(r, codeIds, now) ==> s == ""
    ensures IsValid(r, codeIds, now) ==> |s| > 0 && s[0] == '?'
    ensures IsValid(r, codeIds, now) ==>
      QueryVars(s) == map["c" := NatToString(r.codeId), "r" := NatToString(r.id), "s" := r.secret]
  {
    if !IsValid(r, codeIds, now) then ""
    else
      var q := Piece('c', NatToString(r.codeId)) + "&" + Piece('r', NatToString(r.id)) + "&" + Piece('s', r.secret);
      ThreeParamsRoundTrip('c', NatToString(r.codeId), 'r', NatToString(r.id), 's', r.secret);
      assert ("?" + q)[1..] == q;
      "?" + q
  }

  /** For a secret made of hex digits (every generated one) the suffix is literally
      `?c=<code ID>&r=<ID>&s=<secret>`. */
  lemma {:induction false} HexSecretParamString(r: Redemption, codeIds: set<nat>, now: int)
    requires IsValid(r, codeIds, now) && IsLowerHex(r.secret)
    ensures UrlParamString(r, codeIds, now)
         == "?c=" + NatToString(r.codeId) + "&r=" + NatToString(r.id) + "&s=" + r.secret
  {
    var c, i, x := NatToString(r.codeId), NatToString(r.id), r.secret;
    UrlEncodeUnreserved(c);
    UrlEncodeUnreserved(i);
    UrlEncodeUnreserved(x);
    assert UrlParamString(r, codeIds, now)
        == "?" + (([ 'c'] + "=" + c) + "&" + (['r'] + "=" + i) + "&" + (['s'] + "=" + x));
    ParamLayout(c, i, x);
  }

  lemma ParamLayout(c: string, i: string, x: string)
    ensures "?" + (([ 'c'] + "=" + c) + "&" + (['r'] + "=" + i) + "&" + (['s'] + "=" + x))
         == "?c=" + c + "&r=" + i + "&s=" + x
  {
  }

  predicate HasParams(vars: map<string, string>)
  {
    "r" in vars && "c" in vars && "s" in vars
  }

  /** The three request parameters name this redemption: its ID, the ID of its code record
      (reached through the relation, so a deleted code matches nothing) and its secret. The
      secret filter carries no `:case` modifier and follows the column's case-insensitive
      collation. */
  predicate ParamsMatch(x: Redemption, codeIds: set<nat>, vars: map<string, string>)
  {
    HasParams(vars)
    && ParseNat(vars["r"]) == Some(x.id)
    && ParseNat(vars["c"]) == Some(x.codeId) && x.codeId in codeIds
    && EqualsNoCase(vars["s"], x.secret)
  }

  predicate DistinctIds(rs: seq<Redemption>)
  {
    forall i, j :: 0 <= i < j < |rs| ==> rs[i].id != rs[j].id
  }

  /** The redemption a download request names: nothing when a parameter is missing,
      otherwise the first stored redemption matching all three parameters, returned only
      when it is valid or validity is not asked for. */
  function GetByQueryParams(rs: seq<Redemption>, codeIds: set<nat>, vars: map<string, string>,
                            onlyValid: bool, now: int): (res: Option<Redemption>)
    ensures !HasParams(vars) ==> res.None?
    ensures res.Some? ==> res.value in rs && ParamsMatch(res.value, codeIds, vars)
    ensures res.Some? && onlyValid ==> IsValid(res.value, codeIds, now)
  {
    if !HasParams(vars) then None
    else match FirstIndex(rs, (x: Redemption) => ParamsMatch(x, codeIds, vars))
      case None => None
      case Some(i) => if IsValid(rs[i], codeIds, now) || !onlyValid then Some(rs[i]) else None
  }

  /** With distinct IDs, parameters naming a stored redemption of an existing code return it,
      when it is valid or validity is not asked for. */
  lemma ResolveExact(rs: seq<Redemption>, codeIds: set<nat>, vars: map<string, string>,
                     onlyValid: bool, now: int, i: nat)
    requires DistinctIds(rs) && i < |rs| && ParamsMatch(rs[i], codeIds, vars)
    requires onlyValid ==> IsValid(rs[i], codeIds, now)
    ensures GetByQueryParams(rs, codeIds, vars, onlyValid, now) == Some(rs[i])
  {
    var f := FirstIndex(rs, (x: Redemption) => ParamsMatch(x, codeIds, vars));
    assert f.Some?;
    assert rs[f.value].id == rs[i].id;
  }

  /** With distinct IDs, an `r` naming a stored redemption together with a wrong `c` or an
      `s` that differs from its secret by more than letter case returns nothing. */
  lemma ResolveRejectsAltered(rs: seq<Redemption>, codeIds: set<nat>, vars: map<string, string>,
                              onlyValid: bool, now: int, i: nat)
    requires DistinctIds(rs) && i < |rs| && HasParams(vars)
    requires ParseNat(vars["r"]) == Some(rs[i].id)
    requires ParseNat(vars["c"]) != Some(rs[i].codeId) || !EqualsNoCase(vars["s"], rs[i].secret)
    ensures GetByQueryParams(rs, codeIds, vars, onlyValid, now).None?
  {
    var res := GetByQueryParams(rs, codeIds, vars, onlyValid, now);
    if res.Some? {
      assert false;
    }
  }

  /** With distinct IDs, a redemption whose code record is gone is never returned, not even
      when validity is not asked for. */
  lemma ResolveRejectsOrphan(rs: seq<Redemption>, codeIds: set<nat>, vars: map<string, string>,
                             onlyValid: bool, now: int, i: nat)
    requires DistinctIds(rs) && i < |rs| && HasParams(vars)
    requires ParseNat(vars["r"]) == Some(rs[i].id) && rs[i].codeId !in codeIds
    ensures GetByQueryParams(rs, codeIds, vars, onlyValid, now).None?
  {
    var res := GetByQueryParams(rs, codeIds, vars, onlyValid, now);
    if res.Some? {
      assert false;
    }
  }

  /** The secret is compared up to letter case: "A123" finds the redemption whose secret is
      "a123". */
  lemma SecretCaseExample(x: Redemption, codeIds: set<nat>, now: int)
    requires x.secret == "a123" && x.codeId in codeIds
    ensures GetByQueryParams([x], codeIds, map["c" := NatToString(x.codeId), "r" := NatToString(x.id), "s" := "A123"],
                             false, now) == Some(x)
  {
    SecretNoCase();
    ParseNatToString(x.id);
    ParseNatToString(x.codeId);
    ResolveExact([x], codeIds, map["c" := NatToString(x.codeId), "r" := NatToString(x.id), "s" := "A123"], false, now, 0);
  }

  lemma SecretNoCase()
    ensures EqualsNoCase("A123", "a123")
  {
  }

  /** With distinct IDs, an exact match that is no longer valid is refused when validity is
      asked for. */
  lemma ResolveRejectsInvalid(rs: seq<Redemption>, codeIds: set<nat>, vars: map<string, string>,
                              now: int, i: nat)
    requires DistinctIds(rs) && i < |rs| && ParamsMatch(rs[i], codeIds, vars)
    requires !IsValid(rs[i], codeIds, now)
    ensures GetByQueryParams(rs, codeIds, vars, true, now).None?
  {
    var res := GetByQueryParams(rs, codeIds, vars, true, now);
    if res.Some? {
      assert false;
    }
  }

  /** Round trip: the parameters in a valid redemption's link resolve to that redemption. */
  lemma ParamStringResolves(rs: seq<Redemption>, codeIds: set<nat>, now: int, i: nat)
    requires DistinctIds(rs) && i < |rs| && IsValid(rs[i], codeIds, now)
    ensures GetByQueryParams(rs, codeIds, QueryVars(UrlParamString(rs[i], codeIds, now)), true, now) == Some(rs[i])
  {
    ParseNatToString(rs[i].id);
    ParseNatToString(rs[i].codeId);
    ResolveExact(rs, codeIds, QueryVars(UrlParamString(rs[i], codeIds, now)), true, now, i);
  }

  /** The round trip stated for a stored redemption rather than a position. */
  lemma LinkResolves(rs: seq<Redemption>, codeIds: set<nat>, now: int, r: Redemption)
    requires DistinctIds(rs) && r in rs && UrlParamString(r, codeIds, now) != ""
    ensures GetByQueryParams(rs, codeIds, QueryVars(UrlParamString(r, codeIds, now)), true, now) == Some(r)
  {
    var i :| 0 <= i < |rs| && rs[i] == r;
    ParamStringResolves(rs, codeIds, now, i);
  }
}
