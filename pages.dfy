/** The visitor's path through the download page (src/Model/DLPageController.php), used as
    a scenario that composes the pieces: the typed-in code is looked up, redeemed, and
    turned into the parameters of the download link, which the redeem action resolves
    again. */
module Pages {
  import opened Common
  import opened Encoding
  import opened Query
  import opened Redemptions
  import opened Codes

  /** `submitcode`: nothing (the "Invalid code" message) when no redeemable code matches the
      input; otherwise the code is redeemed and the parameter string of the download link
      is returned together with the redemption it names. A valid redemption's link
      resolves back to it; a fresh one is valid when the validity is positive, while a
      reused one that has expired yields an empty parameter string. */
  method SubmitCode(reg: Registry, input: string, cfg: Config, now: int, random: seq<Byte>)
    returns (link: Option<string>, redemption: Option<Redemption>)
    requires reg.Valid() && |random| == SecretBytes
    modifies reg
    ensures reg.Valid()
    ensures FindRedeemable(old(reg.codes), input, cfg, now).None? ==>
      link.None? && redemption.None? && reg.codes == old(reg.codes) && reg.redemptions == old(reg.redemptions)
    ensures FindRedeemable(old(reg.codes), input, cfg, now).Some? ==>
      && link.Some? && redemption.Some?
      && redemption.value in reg.redemptions
      && redemption.value.codeId == old(reg.codes)[FindRedeemable(old(reg.codes), input, cfg, now).value].id
      && link.value == UrlParamString(redemption.value, reg.CodeIds(), now)
    ensures link.Some? && link.value != "" ==>
      GetByQueryParams(reg.redemptions, reg.CodeIds(), QueryVars(link.value), true, now) == redemption
    ensures link.Some? && redemption.value !in old(reg.redemptions) && cfg.validityDays > 0 ==> link.value != ""
    ensures link.Some? && redemption.value in old(reg.redemptions) && redemption.value.expires <= now ==> link.value == ""
  {
    var found := FindRedeemable(reg.codes, input, cfg, now);
    if found.None? {
      return None, None;
    }
    var k := found.value;
    var r := reg.Redeem(k, cfg, now, random);
    var rv := r.value;
    assert reg.codes[k].id == old(reg.codes)[k].id;
    assert rv.codeId in reg.CodeIds();
    redemption := r;
    link := Some(UrlParamString(rv, reg.CodeIds(), now));
    if link.value != "" {
      LinkResolves(reg.redemptions, reg.CodeIds(), now, rv);
    }
  }
}
