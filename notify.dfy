/**
  The Discord message the bot posts for one discounted game: the JSON body
  built by `discord_bildirimi_gonder`, as a value. The POST itself is not
  part of this module; the run records each call as the `Deal` it was made
  with.
 */
module Notify {
  import opened Wrappers
  import opened Text

  /** The arguments of one notification: display name, app id, discount
      figure, original price and final price. */
  datatype Deal = Deal(name: string, appId: string, discount: string, oldPrice: string, newPrice: string)

  datatype EmbedField = EmbedField(name: string, value: string, inline: bool)

  datatype Embed = Embed(
    title: string,
    url: string,
    description: string,
    color: int,
    fields: seq<EmbedField>,
    thumbnailUrl: string,
    footerText: string)

  /** The webhook body: a top-level announcement line and a list of embeds. */
  datatype Payload = Payload(content: string, embeds: seq<Embed>)

  const StorePrefix: string := "https://store.steampowered.com/app/"
  const ImagePrefix: string := "https://cdn.akamai.steamstatic.com/steam/apps/"
  const ImageSuffix: string := "/header.jpg"
  const Announcement: string := "\U{1F389} **'Sim\U{FC}lasyon' \U{130}ndirim Alarm\U{131}!** \U{1F389}"
  const TitlePrefix: string := "\U{1F3AE} "
  const DescriptionPrefix: string := "Etiketle takibinizdeki bu oyun **%"
  const DescriptionSuffix: string := "** indirime girdi!"
  const OldPriceLabel: string := "Eski Fiyat"
  const NewPriceLabel: string := "Yeni Fiyat"
  const Strike: string := "~~"
  const Bold: string := "**"
  /** 0x00FF00, green. */
  const Green: int := 65280
  const Footer: string := "Steam Store Scraper Bot"

  /** The text between a known prefix and a known suffix, if `s` has both
      and they do not overlap. */
  function Between(s: string, prefix: string, suffix: string): Option<string>
  {
    if |prefix| + |suffix| <= |s| && s[..|prefix|] == prefix && s[|s| - |suffix|..] == suffix
    then Some(s[|prefix|..|s| - |suffix|])
    else None
  }

  /** Whatever is placed between a prefix and a suffix is read back intact,
      even when it contains the prefix or the suffix itself. */
  lemma BetweenConcat(prefix: string, x: string, suffix: string)
    ensures Between(prefix + x + suffix, prefix, suffix) == Some(x)
  {
    var s := prefix + x + suffix;
    assert s[..|prefix|] == prefix;
    assert s[|s| - |suffix|..] == suffix;
    assert s[|prefix|..|s| - |suffix|] == x;
  }

  /** The store page of a game: the app id is the last path segment. */
  function StoreUrl(appId: string): (url: string)
    ensures Between(url, StorePrefix, "") == Some(appId)
  {
    BetweenConcat(StorePrefix, appId, "");
    assert StorePrefix + appId + "" == StorePrefix + appId;
    StorePrefix + appId
  }

  /** The header image of a game, from the store's CDN. */
  function ImageUrl(appId: string): (url: string)
    ensures Between(url, ImagePrefix, ImageSuffix) == Some(appId)
  {
    BetweenConcat(ImagePrefix, appId, ImageSuffix);
    ImagePrefix + appId + ImageSuffix
  }

  /** Different games get different links and different pictures. */
  lemma UrlsInjective(a: string, b: string)
    requires StoreUrl(a) == StoreUrl(b) || ImageUrl(a) == ImageUrl(b)
    ensures a == b
  {
  }

  /** The message for one deal. The prices are stripped here once more,
      and are shown struck through (old) and in bold (new). */
  function BuildPayload(name: string, appId: string, discount: string, oldPrice: string, newPrice: string): (p: Payload)
    ensures p.content == Announcement && |p.embeds| == 1
    ensures p.embeds[0].color == Green && p.embeds[0].footerText == Footer
    ensures |p.embeds[0].fields| == 2
    ensures p.embeds[0].fields[0].name == OldPriceLabel && p.embeds[0].fields[0].inline
    ensures p.embeds[0].fields[1].name == NewPriceLabel && p.embeds[0].fields[1].inline
    ensures ReadPayload(p) == Some(Deal(name, appId, discount, Strip(oldPrice), Strip(newPrice)))
  {
    var oldShown := Strip(oldPrice);
    var newShown := Strip(newPrice);
    BetweenConcat(TitlePrefix, name, "");
    assert TitlePrefix + name + "" == TitlePrefix + name;
    BetweenConcat(DescriptionPrefix, discount, DescriptionSuffix);
    BetweenConcat(Strike, oldShown, Strike);
    BetweenConcat(Bold, newShown, Bold);
    var embed := Embed(
      TitlePrefix + name,
      StoreUrl(appId),
      DescriptionPrefix + discount + DescriptionSuffix,
      Green,
      [ EmbedField(OldPriceLabel, Strike + oldShown + Strike, true),
        EmbedField(NewPriceLabel, Bold + newShown + Bold, true) ],
      ImageUrl(appId),
      Footer);
    Payload(Announcement, [embed])
  }

  /** Reads a message back into the deal it announces, provided it has the
      bot's layout and its link and picture name the same game. */
  function ReadPayload(p: Payload): Option<Deal>
  {
    if |p.embeds| != 1 || |p.embeds[0].fields| != 2 then None
    else
      var e := p.embeds[0];
      match (Between(e.title, TitlePrefix, ""), Between(e.url, StorePrefix, ""),
             Between(e.description, DescriptionPrefix, DescriptionSuffix),
             Between(e.fields[0].value, Strike, Strike), Between(e.fields[1].value, Bold, Bold))
      case (Some(name), Some(appId), Some(discount), Some(oldPrice), Some(newPrice)) =>
        if Between(e.thumbnailUrl, ImagePrefix, ImageSuffix) == Some(appId)
        then Some(Deal(name, appId, discount, oldPrice, newPrice))
        else None
      case _ => None
  }

  /** The run strips the scraped prices before the call, and the builder
      strips them again; the second strip changes nothing, so the message
      shows exactly the prices the run recorded. */
  lemma PayloadShowsScrapedPrices(name: string, appId: string, discount: string, oldText: string, newText: string)
    ensures ReadPayload(BuildPayload(name, appId, discount, Strip(oldText), Strip(newText)))
            == Some(Deal(name, appId, discount, Strip(oldText), Strip(newText)))
  {
    StripIdempotent(oldText);
    StripIdempotent(newText);
  }

  /** The builder removes only the whitespace around a price: a price with
      no whitespace at its ends is shown character for character, so a
      currency unit it carries stays in the message. */
  lemma PricesShownVerbatim(name: string, appId: string, discount: string, oldPrice: string, newPrice: string)
    requires Trimmed(oldPrice) && Trimmed(newPrice)
    ensures ReadPayload(BuildPayload(name, appId, discount, oldPrice, newPrice))
            == Some(Deal(name, appId, discount, oldPrice, newPrice))
  {
    StripTrimmed(oldPrice);
    StripTrimmed(newPrice);
  }

  /** A price such as "100 TL" keeps its unit: nothing but whitespace is
      cleaned from it. */
  lemma CurrencyUnitKept(name: string, appId: string, discount: string, newPrice: string)
    ensures ReadPayload(BuildPayload(name, appId, discount, "100 TL", newPrice)).value.oldPrice == "100 TL"
  {
    StripTrimmed("100 TL");
  }

}
