/** The name classification rules of the report generator (`get_color` and
    `get_icon`): an ordered registry of four public figures, each recognised
    by a Chinese and an English spelling of the name, searched first match
    first. */
module NameRules {
  import opened Wrappers
  import opened Text
  import opened Seqs

  /** The recognised figures. */
  datatype Figure = Buffett | Gates | Musk | Jobs

  /** The order in which the rules are tried. */
  const Registry: seq<Figure> := [Buffett, Gates, Musk, Jobs]

  const DefaultColor := "gray"
  const DefaultIcon := "👤"

  function ChineseName(f: Figure): string {
    match f
    case Buffett => "巴菲特"
    case Gates => "盖茨"
    case Musk => "马斯克"
    case Jobs => "乔布斯"
  }

  function EnglishName(f: Figure): string {
    match f
    case Buffett => "Buffett"
    case Gates => "Gates"
    case Musk => "Musk"
    case Jobs => "Jobs"
  }

  function FigureColor(f: Figure): string {
    match f
    case Buffett => "green"
    case Gates => "blue"
    case Musk => "red"
    case Jobs => "purple"
  }

  function FigureIcon(f: Figure): string {
    match f
    case Buffett => "🎩"
    case Gates => "💻"
    case Musk => "🚀"
    case Jobs => "🍎"
  }

  /** Whether the rule for `f` recognises `name`: the colour rule accepts
      either spelling, the icon rule only the Chinese one. */
  predicate Recognises(f: Figure, name: string, englishToo: bool) {
    Occurs(ChineseName(f), name) || (englishToo && Occurs(EnglishName(f), name))
  }

  /** The position of the first rule in `rules` that recognises `name`. */
  function FirstMatch(name: string, rules: seq<Figure>, englishToo: bool): (r: Option<nat>)
    ensures r.Some? ==> r.value < |rules| && Recognises(rules[r.value], name, englishToo)
    ensures r.Some? ==> forall j :: 0 <= j < r.value ==> !Recognises(rules[j], name, englishToo)
    ensures r.None? <==> forall j :: 0 <= j < |rules| ==> !Recognises(rules[j], name, englishToo)
  {
    FirstWhere(f => Recognises(f, name, englishToo), rules)
  }

  /** `get_color`: the if/elif chain of the source. */
  function GetColor(name: string): (r: string)
    ensures r in {"green", "blue", "red", "purple", "gray"}
    ensures r == DefaultColor ==> forall f :: !Recognises(f, name, true)
    ensures Recognises(Buffett, name, true) ==> r == "green"
  {
    if Occurs("巴菲特", name) || Occurs("Buffett", name) then "green"
    else if Occurs("盖茨", name) || Occurs("Gates", name) then "blue"
    else if Occurs("马斯克", name) || Occurs("Musk", name) then "red"
    else if Occurs("乔布斯", name) || Occurs("Jobs", name) then "purple"
    else "gray"
  }

  /** `get_icon`: the chain of `if` statements of the source, which tests
      only the Chinese spellings. */
  function GetIcon(name: string): (r: string)
    ensures r in {"🎩", "💻", "🚀", "🍎", "👤"}
    ensures r == DefaultIcon ==> forall f :: !Recognises(f, name, false)
    ensures Recognises(Buffett, name, false) ==> r == "🎩"
  {
    if Occurs("巴菲特", name) then "🎩"
    else if Occurs("盖茨", name) then "💻"
    else if Occurs("马斯克", name) then "🚀"
    else if Occurs("乔布斯", name) then "🍎"
    else "👤"
  }

  /** The colour is that of the first rule of the registry that recognises
      the name under either spelling, and grey when none does. */
  lemma GetColorIsFirstMatch(name: string)
    ensures GetColor(name) == match FirstMatch(name, Registry, true)
                              case Some(k) => FigureColor(Registry[k])
                              case None => DefaultColor
  {
    RegistryMatch(name, true);
  }

  /** The icon is that of the first rule of the registry that recognises
      the Chinese spelling, and the generic glyph when none does. */
  lemma GetIconIsFirstMatch(name: string)
    ensures GetIcon(name) == match FirstMatch(name, Registry, false)
                             case Some(k) => FigureIcon(Registry[k])
                             case None => DefaultIcon
  {
    RegistryMatch(name, false);
  }

  /** The first match over the registry, unfolded rule by rule. */
  lemma RegistryMatch(name: string, englishToo: bool)
    ensures FirstMatch(name, Registry, englishToo) ==
      if Recognises(Buffett, name, englishToo) then Some(0)
      else if Recognises(Gates, name, englishToo) then Some(1)
      else if Recognises(Musk, name, englishToo) then Some(2)
      else if Recognises(Jobs, name, englishToo) then Some(3)
      else None
  {
    var r := FirstMatch(name, Registry, englishToo);
    assert Registry[0] == Buffett && Registry[1] == Gates && Registry[2] == Musk && Registry[3] == Jobs;
    if r.Some? {
      assert forall j :: 0 <= j < r.value ==> !Recognises(Registry[j], name, englishToo);
    } else {
      assert forall j :: 0 <= j < 4 ==> !Recognises(Registry[j], name, englishToo);
    }
  }

  /** Grey is given exactly to the names that no rule recognises. */
  lemma GetColorDefault(name: string)
    ensures GetColor(name) == DefaultColor <==> forall f :: !Recognises(f, name, true)
  {
    if forall f :: !Recognises(f, name, true) {
      assert !Recognises(Buffett, name, true) && !Recognises(Gates, name, true);
      assert !Recognises(Musk, name, true) && !Recognises(Jobs, name, true);
    }
  }

  /** The generic glyph is given exactly to the names in which no Chinese
      spelling occurs. */
  lemma GetIconDefault(name: string)
    ensures GetIcon(name) == DefaultIcon <==> forall f :: !Recognises(f, name, false)
  {
    if forall f :: !Recognises(f, name, false) {
      assert !Recognises(Buffett, name, false) && !Recognises(Gates, name, false);
      assert !Recognises(Musk, name, false) && !Recognises(Jobs, name, false);
    }
  }

  /** An earlier colour rule wins over a later one: a name in which two
      figures occur, in either spelling, never gets the later one's colour. */
  lemma EarlierColorWins(name: string, i: nat, j: nat)
    requires i < j < |Registry|
    requires Recognises(Registry[i], name, true) && Recognises(Registry[j], name, true)
    ensures GetColor(name) != FigureColor(Registry[j])
  {
    var c := FirstMatch(name, Registry, true);
    assert c.Some? && c.value <= i;
    GetColorIsFirstMatch(name);
    RegistryDistinct(c.value, j);
  }

  /** An earlier icon rule wins over a later one: a name in which the Chinese
      names of two figures occur never gets the later one's icon. */
  lemma EarlierIconWins(name: string, i: nat, j: nat)
    requires i < j < |Registry|
    requires Recognises(Registry[i], name, false) && Recognises(Registry[j], name, false)
    ensures GetIcon(name) != FigureIcon(Registry[j])
  {
    var d := FirstMatch(name, Registry, false);
    assert d.Some? && d.value <= i;
    GetIconIsFirstMatch(name);
    RegistryDistinct(d.value, j);
  }

  /** Different rules give different colours and different icons. */
  lemma RegistryDistinct(a: nat, b: nat)
    requires a < b < |Registry|
    ensures FigureColor(Registry[a]) != FigureColor(Registry[b])
    ensures FigureIcon(Registry[a]) != FigureIcon(Registry[b])
  {
  }

  /** A name spelled only in English is coloured but keeps the generic icon. */
  lemma EnglishOnlyName(name: string, f: Figure)
    requires Occurs(EnglishName(f), name)
    requires forall g :: !Occurs(ChineseName(g), name)
    ensures GetColor(name) != DefaultColor
    ensures GetIcon(name) == DefaultIcon
  {
    assert Recognises(f, name, true);
    GetIconDefault(name);
  }

  /** "Buffett" alone: green, with the generic icon. */
  lemma BuffettInEnglish()
    ensures GetColor("Buffett") == "green"
    ensures GetIcon("Buffett") == DefaultIcon
  {
    assert OccursAt("Buffett", "Buffett", 0);
    forall g ensures !Occurs(ChineseName(g), "Buffett") {
      forall i | 0 <= i <= |"Buffett"| - |ChineseName(g)|
        ensures !OccursAt(ChineseName(g), "Buffett", i)
      {
        assert "Buffett"[i] <= 'u';
        assert ChineseName(g)[0] > 'u';
      }
    }
    EnglishOnlyName("Buffett", Buffett);
  }
}
