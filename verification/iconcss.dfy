/** The icon style sheet: one CSS rule per icon definition, putting the
    icon's image in front of every label carrying the base class and the
    icon's class. The URL of each icon comes from a resolver that is not
    part of this model; it is a parameter here, given the source path and
    the icon key. */
module IconCss {
  import opened Optional
  import opened Strings

  /** `before(selector)`. */
  function Before(selector: string): (r: string)
    ensures |r| == |selector| + 8 && r[..|selector|] == selector && r[|selector|..] == "::before"
  {
    selector + "::before"
  }

  /** `toSelector(...classes)`: a compound class selector. */
  function ToSelector(classes: seq<string>): (r: string)
    ensures |classes| == 2 ==> r == "." + classes[0] + "." + classes[1]
    ensures r != [] && r[0] == '.'
  {
    assert |classes| == 2 ==> Join(classes, '.') == classes[0] + "." + classes[1] by {
      if |classes| == 2 {
        assert classes[1..] == [classes[1]];
      }
    }
    "." + Join(classes, '.')
  }

  /** The text of a rule between the selector and the URL, and after the URL. */
  const RuleOpen: string := " { content: ' '; background-image: url('"
  const RuleClose: string := "'); }\n"

  /** `iconStyle(selector, iconUrl)`: one rule, ending in a line break, whose
      declaration block puts the URL in as the background image. */
  function IconStyle(selector: string, iconUrl: string): (r: string)
    ensures var at := |selector| + 8 + |RuleOpen|;
      && |r| == at + |iconUrl| + |RuleClose|
      && r[..|selector| + 8] == Before(selector)
      && r[|selector| + 8..at] == RuleOpen
      && r[at..at + |iconUrl|] == iconUrl
      && r[at + |iconUrl|..] == RuleClose
      && r[|r| - 1] == '\n'
  {
    var r := Before(selector) + RuleOpen + iconUrl + RuleClose;
    assert r == Before(selector) + (RuleOpen + (iconUrl + RuleClose));
    r
  }

  /** The rule for the icon `key`. */
  function Rule(sourcePath: string, baseClass: string, key: string, iconUrl: (string, string) -> string): (r: string)
    ensures r == IconStyle("." + baseClass + "." + key, iconUrl(sourcePath, key))
  {
    IconStyle(ToSelector([baseClass, key]), iconUrl(sourcePath, key))
  }

  /** The strings one after the other. */
  function Concat(parts: seq<string>): string
    decreases |parts|
  {
    if parts == [] then "" else parts[0] + Concat(parts[1..])
  }

  lemma {:induction false} ConcatAppend(a: seq<string>, b: seq<string>)
    ensures Concat(a + b) == Concat(a) + Concat(b)
    decreases |a|
  {
    if a == [] {
      assert a + b == b;
    } else {
      assert (a + b)[0] == a[0] && (a + b)[1..] == a[1..] + b;
      ConcatAppend(a[1..], b);
    }
  }

  /** One rule per icon key, in the order the keys are enumerated. */
  function Rules(sourcePath: string, baseClass: string, keys: seq<string>, iconUrl: (string, string) -> string): (rs: seq<string>)
    ensures |rs| == |keys|
    ensures forall i :: 0 <= i < |keys| ==> rs[i] == Rule(sourcePath, baseClass, keys[i], iconUrl)
  {
    seq(|keys|, i requires 0 <= i < |keys| => Rule(sourcePath, baseClass, keys[i], iconUrl))
  }

  /** `getStylesFromJson`: the rules of the icon keys, one after the other.
      The sheet is empty exactly when there are no keys, and otherwise opens
      with the first key's selector. */
  function StylesFromJson(sourcePath: string, baseClass: string, keys: seq<string>, iconUrl: (string, string) -> string): (styles: string)
    ensures styles == "" <==> keys == []
    ensures keys != [] ==> var sel := "." + baseClass + "." + keys[0];
      |sel| <= |styles| && styles[..|sel|] == sel
  {
    var rs := Rules(sourcePath, baseClass, keys, iconUrl);
    assert keys != [] ==> Concat(rs) == rs[0] + Concat(rs[1..]) && rs[0] != "";
    assert keys != [] ==> var sel := "." + baseClass + "." + keys[0];
      |sel| <= |rs[0]| && (rs[0] + Concat(rs[1..]))[..|sel|] == rs[0][..|sel|];
    Concat(rs)
  }

  /** The sheet for two lists of keys is the two sheets one after the other. */
  lemma StylesAppend(sourcePath: string, baseClass: string, a: seq<string>, b: seq<string>, iconUrl: (string, string) -> string)
    ensures StylesFromJson(sourcePath, baseClass, a + b, iconUrl)
      == StylesFromJson(sourcePath, baseClass, a, iconUrl) + StylesFromJson(sourcePath, baseClass, b, iconUrl)
  {
    var ra := Rules(sourcePath, baseClass, a, iconUrl);
    var rb := Rules(sourcePath, baseClass, b, iconUrl);
    assert Rules(sourcePath, baseClass, a + b, iconUrl) == ra + rb;
    ConcatAppend(ra, rb);
  }

  /** The `i`-th icon's rule sits after the rules of the icons before it and
      before the rules of the icons after it. */
  lemma RuleAt(sourcePath: string, baseClass: string, keys: seq<string>, iconUrl: (string, string) -> string, i: int)
    requires 0 <= i < |keys|
    ensures StylesFromJson(sourcePath, baseClass, keys, iconUrl)
      == StylesFromJson(sourcePath, baseClass, keys[..i], iconUrl)
       + Rule(sourcePath, baseClass, keys[i], iconUrl)
       + StylesFromJson(sourcePath, baseClass, keys[i + 1..], iconUrl)
  {
    assert keys == keys[..i] + ([keys[i]] + keys[i + 1..]);
    StylesAppend(sourcePath, baseClass, keys[..i], [keys[i]] + keys[i + 1..], iconUrl);
    StylesAppend(sourcePath, baseClass, [keys[i]], keys[i + 1..], iconUrl);
    var one := Rules(sourcePath, baseClass, [keys[i]], iconUrl);
    assert Concat(one) == one[0] + Concat([]);
  }

  /** The child `render` puts in the `style` element: nothing unless both the
      icon definitions and a non-empty source path are given and the sheet
      is not empty; otherwise the sheet. */
  function RenderChild(icons: Option<seq<string>>, sourcePath: Option<string>, baseClass: string, iconUrl: (string, string) -> string): (r: Option<string>)
    ensures r.Some? <==> icons.Some? && icons.value != [] && sourcePath.Some? && sourcePath.value != ""
    ensures r.Some? ==> r.value == StylesFromJson(sourcePath.value, baseClass, icons.value, iconUrl) && r.value != ""
  {
    if icons.Some? && sourcePath.Some? && sourcePath.value != "" then
      var styles := StylesFromJson(sourcePath.value, baseClass, icons.value, iconUrl);
      if styles != "" then Some(styles) else None
    else None
  }
}
