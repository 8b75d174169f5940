/**
  Normalisation of the configuration record read from `override_ref`: the
  editable column and the comma-separated joining keys are stripped and
  upper-cased before any SQL is built from them.
 */
module Config {
  import opened Text

  /** The two configuration fields the override workflow uses. */
  datatype Config = Config(editable: string, joinKeys: seq<string>)

  /** `raw.strip().upper()` */
  function Normalise(raw: string): (r: string)
    ensures r == [] || (!IsSpace(r[0]) && !IsSpace(r[|r| - 1]))
    ensures forall k :: 0 <= k < |r| ==> !IsLower(r[k])
  {
    UpperProperties(Strip(raw));
    Upper(Strip(raw))
  }

  /** The editable column is normalised as a whole; the joining keys are the
      normalised string split on commas, each piece left as it is. */
  function NormaliseConfig(rawEditable: string, rawKeys: string): (cfg: Config)
    ensures cfg.editable == Normalise(rawEditable)
    ensures cfg.joinKeys != []
    ensures |cfg.joinKeys| == Count(rawKeys, ',') + 1
    ensures Join(cfg.joinKeys, ',') == Normalise(rawKeys)
    ensures forall k :: k in cfg.joinKeys ==> ',' !in k
  {
    var keys := Normalise(rawKeys);
    StripKeepsCount(rawKeys, ',');
    UpperKeepsCount(Strip(rawKeys), ',');
    SplitPieces(keys, ',');
    JoinSplit(keys, ',');
    Config(Normalise(rawEditable), Split(keys, ','))
  }

  /** Normalising a second time changes nothing. */
  lemma {:induction false} NormaliseIdempotent(raw: string)
    ensures Normalise(Normalise(raw)) == Normalise(raw)
  {
    var n := Normalise(raw);
    StripTrimmed(n);
    UpperProperties(Strip(raw));
  }

  /** Only the outer white space of the key list is removed: a key written
      with spaces around it keeps them. */
  lemma KeysAreNotTrimmed()
    ensures NormaliseConfig("value ", " id , desk ").joinKeys == ["ID ", " DESK"]
  {
    OuterSpaceStripped();
    InnerSpaceKept();
    SplitJoin(["ID ", " DESK"], ',');
  }

  /** The example key list loses its outer spaces. */
  lemma OuterSpaceStripped()
    ensures Strip(" id , desk ") == "id , desk"
  {
    var raw := " id , desk ";
    var mid := "id , desk";
    assert LeadingSpaces(raw[1..]) == 0;
    assert LeadingSpaces(raw) == 1;
    var l := raw[1..];
    assert l == mid + " ";
    assert l[..|l| - 1] == mid;
    assert TrailingSpaces(mid) == 0;
    assert TrailingSpaces(l) == 1;
  }

  /** The stripped example is upper-cased around its inner spaces, and is
      the join of two keys that keep them. */
  lemma InnerSpaceKept()
    ensures Upper("id , desk") == "ID , DESK"
    ensures Join(["ID ", " DESK"], ',') == "ID , DESK"
  {
    var up := Upper("id , desk");
    assert |up| == 9;
    assert up == "ID , DESK";
  }
}
