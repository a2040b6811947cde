/**
 * The Tag Expander: the fixed alias table for the Sámi languages and the
 * ordered list of locale tags one base identifier answers to.
 */
module TagExpansion {
  import opened Options

  /**
   * The external locale-name resolver (`util::resolve_locale_name`). Its
   * code is not part of this model, so every operation that needs it takes
   * it as a parameter.
   */
  type Resolver = string -> Option<string>

  /** The base tags that carry hard-coded aliases, in the table's order. */
  const AliasedBaseTags: seq<string> := ["se", "sma", "smn", "sms", "smj"]

  /** The regions an alias is generated for, in generation order. */
  const AliasRegions: seq<string> := ["NO", "SE", "FI"]

  /** For each region in turn, the Latin-script alias and then the plain region alias. */
  function RegionAliases(tag: string, regions: seq<string>): (aliases: seq<string>)
    ensures |aliases| == 2 * |regions|
    ensures forall i :: 0 <= i < |regions| ==>
      aliases[2 * i] == tag + "-Latn-" + regions[i] && aliases[2 * i + 1] == tag + "-" + regions[i]
  {
    if regions == [] then []
    else
      var rest := RegionAliases(tag, regions[1..]);
      assert forall i :: 1 <= i < |regions| ==> regions[i] == regions[1..][i - 1];
      [tag + "-Latn-" + regions[0], tag + "-" + regions[0]] + rest
  }

  /** `HARDCODED_TAG_TABLE`: built once, never changed. */
  const AliasTable: map<string, seq<string>> :=
    map k | k in AliasedBaseTags :: RegionAliases(k, AliasRegions)

  /** The six aliases of one base tag, spelled out. */
  lemma RegionAliasesSpelled(k: string)
    ensures RegionAliases(k, AliasRegions) ==
      [k + "-Latn-NO", k + "-NO", k + "-Latn-SE", k + "-SE", k + "-Latn-FI", k + "-FI"]
  {
    assert k + "-Latn-" + "NO" == k + ("-Latn-" + "NO") == k + "-Latn-NO";
    assert k + "-" + "NO" == k + ("-" + "NO") == k + "-NO";
    assert k + "-Latn-" + "SE" == k + ("-Latn-" + "SE") == k + "-Latn-SE";
    assert k + "-" + "SE" == k + ("-" + "SE") == k + "-SE";
    assert k + "-Latn-" + "FI" == k + ("-Latn-" + "FI") == k + "-Latn-FI";
    assert k + "-" + "FI" == k + ("-" + "FI") == k + "-FI";
    var aliases := RegionAliases(k, AliasRegions);
    assert aliases[0] == k + "-Latn-" + AliasRegions[0] && aliases[1] == k + "-" + AliasRegions[0];
    assert aliases[2] == k + "-Latn-" + AliasRegions[1] && aliases[3] == k + "-" + AliasRegions[1];
    assert aliases[4] == k + "-Latn-" + AliasRegions[2] && aliases[5] == k + "-" + AliasRegions[2];
  }

  /** The table has exactly the five Sámi keys, each with its six aliases in a fixed order. */
  lemma AliasTableShape()
    ensures AliasTable.Keys == {"se", "sma", "smn", "sms", "smj"}
    ensures forall k :: k in AliasTable ==>
      AliasTable[k] == [k + "-Latn-NO", k + "-NO", k + "-Latn-SE", k + "-SE", k + "-Latn-FI", k + "-FI"]
  {
    forall k | k in AliasTable
      ensures AliasTable[k] == [k + "-Latn-NO", k + "-NO", k + "-Latn-SE", k + "-SE", k + "-Latn-FI", k + "-FI"]
    {
      RegionAliasesSpelled(k);
    }
  }

  /** The first tag: the resolver's canonical tag, or the base identifier verbatim. */
  function CanonicalTag(resolve: Resolver, neutralTag: string): string {
    match resolve(neutralTag)
    case Some(tag) => tag
    case None => neutralTag
  }

  /** `HARDCODED_TAG_TABLE.get(neutral_tag)`, with a missing key giving no aliases. */
  function ExtraTags(neutralTag: string): seq<string> {
    if neutralTag in AliasTable then AliasTable[neutralTag] else []
  }

  /** The table lookup: six aliases for a Sámi base tag, none for anything else. */
  lemma ExtraTagsShape(b: string)
    ensures b in AliasedBaseTags ==>
      ExtraTags(b) == [b + "-Latn-NO", b + "-NO", b + "-Latn-SE", b + "-SE", b + "-Latn-FI", b + "-FI"]
    ensures b !in AliasedBaseTags ==> ExtraTags(b) == []
  {
    if b in AliasedBaseTags {
      RegionAliasesSpelled(b);
    }
  }

  /** The ordered tag list `resolve_local_name` returns; no de-duplication. */
  function LocaleTags(resolve: Resolver, neutralTag: string): seq<string> {
    [CanonicalTag(resolve, neutralTag)] + ExtraTags(neutralTag)
  }

  /**
   * The shape of an expansion: never empty, headed by the canonical or
   * verbatim tag; seven tags with the six table aliases for a Sámi key; one
   * tag otherwise, and then exactly the input when the resolver knows nothing.
   */
  lemma LocaleTagsShape(resolve: Resolver, b: string)
    ensures LocaleTags(resolve, b) != []
    ensures LocaleTags(resolve, b)[0] == if resolve(b).Some? then resolve(b).value else b
    ensures b in AliasedBaseTags ==>
      |LocaleTags(resolve, b)| == 7 &&
      LocaleTags(resolve, b)[1..] == [b + "-Latn-NO", b + "-NO", b + "-Latn-SE", b + "-SE", b + "-Latn-FI", b + "-FI"]
    ensures b !in AliasedBaseTags ==> |LocaleTags(resolve, b)| == 1
    ensures b !in AliasedBaseTags && resolve(b).None? ==> LocaleTags(resolve, b) == [b]
  {
    ExtraTagsShape(b);
    assert LocaleTags(resolve, b)[1..] == ExtraTags(b);
  }

  /**
   * A Sámi base tag answers, for each of Norway, Sweden and Finland, to both
   * the Latin-script and the plain regional tag.
   */
  lemma RegionTagsIncluded(resolve: Resolver, b: string, region: string)
    requires b in AliasedBaseTags && region in AliasRegions
    ensures b + "-Latn-" + region in LocaleTags(resolve, b)
    ensures b + "-" + region in LocaleTags(resolve, b)
  {
    assert b in AliasTable;
    var aliases := RegionAliases(b, AliasRegions);
    assert LocaleTags(resolve, b) == [CanonicalTag(resolve, b)] + aliases;
    var i :| 0 <= i < |AliasRegions| && AliasRegions[i] == region;
    assert aliases[2 * i] == b + "-Latn-" + region && aliases[2 * i + 1] == b + "-" + region;
  }

  /** The alias loop of `resolve_local_name`: push each alias, in order, after what is there. */
  method PushAll(tags: seq<string>, aliases: seq<string>) returns (pushed: seq<string>)
    ensures pushed == tags + aliases
  {
    pushed := tags;
    for i := 0 to |aliases|
      invariant pushed == tags + aliases[..i]
    {
      assert aliases[..i + 1] == aliases[..i] + [aliases[i]];
      pushed := pushed + [aliases[i]];
    }
    assert aliases[..|aliases|] == aliases;
  }

  /** `resolve_local_name`: push the first tag, then push each alias in table order. */
  method ResolveLocalName(resolve: Resolver, neutralTag: string) returns (tags: seq<string>)
    ensures tags == LocaleTags(resolve, neutralTag)
  {
    tags := [];
    match resolve(neutralTag) {
      case Some(tag) => tags := tags + [tag];
      case None => tags := tags + [neutralTag];
    }
    // The table lookup; a missing key leaves nothing to push.
    tags := PushAll(tags, ExtraTags(neutralTag));
  }
}
