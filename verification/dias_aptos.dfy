/**
 * The pure decisions of the soil-workability scraper
 * (`scripts/scraping_dias_aptos.py`): which IBGE municipality a weather
 * station belongs to, and the label of each agricultural practice.
 */
module DiasAptos {
  import opened Wrappers
  import opened Text
  import opened Normalization
  import opened Municipalities

  /*
   * `locais_associacoes`: station names (verbatim, with suffix) whose
   * municipality has another name. The table is written in source order as
   * seven consecutive blocks so that facts about all of it can be proved block
   * by block; no key occurs twice, so the union is the whole table.
   */
  const AliasBlock0: map<string, string> :=
    map[
      "ABROLHOS (A) - BA" := "Caravelas",
      "AGUAS EMENDADAS (A) - GO" := "Planaltina",
      "ALTO DA BOA VISTA (C) - RJ" := "Rio de Janeiro",
      "ARCO VERDE (A) - PE" := "Recife",
      "AREMBEPE (A) - BA" := "Camaçari",
      "AVELAR (P.DO ALFERES) (C) - RJ" := "Paty do Alferes",
      "BOM JESUS DO PIAUI (C) - PI" := "Bom Jesus",
      "BOM JESUS DO PIAUI (A) - PI" := "Bom Jesus",
      "CALCANHAR (A) - RN" := "Touros",
      "CALDEIRAO (C) - PI" := "Picos"
    ]

  const AliasBlock1: map<string, string> :=
    map[
      "CAMARATUBA (A) - PB" := "Mamanguape",
      "CAMPO NOVO DOS PARECIS (A) - MT" := "Campo Novo do Parecis",
      "CAMPOS (C) - RJ" := "Campos dos Goytacazes",
      "CAMPOS (A) - RJ" := "Campos dos Goytacazes",
      "C. DO MATO DENTRO (C) - MG" := "Conceição do Mato Dentro",
      "CEARA MIRIM (C) - RN" := "Ceará-Mirim",
      "DELFINO (A) - BA" := "Vitória da Conquista",
      "ECOLOGIA AGRÍCOLA (A) - RJ" := "Seropédica",
      "FACULDADE DA TERRA DE BRASÍLIA (A) - DF" := "Brasília",
      "FLORIANÓPOLIS-SÃO JOSE (A) - SC" := "São José"
    ]

  const AliasBlock2: map<string, string> :=
    map[
      "FORTE DE COPACABANA (A) - RJ" := "Rio de Janeiro",
      "GLEBA CELESTE (C) - MT" := "Sorriso",
      "IAUARETÊ (C) - AM" := "São Gabriel da Cachoeira",
      "ILHA DE SANTANA (A) - MA" := "São Luís",
      "ILHA DO MEL (A) - PR" := "Paranaguá",
      "JACAREPAGUA (A) - RJ" := "Rio de Janeiro",
      "LUIZ EDUARDO MAGALHAES (A) - BA" := "Luís Eduardo Magalhães",
      "Mal. CANDIDO RONDON (A) - PR" := "Marechal Cândido Rondon",
      "MARIA DE FÉ (A) - MG" := "Maria da Fé",
      "MOCAMBINHO (C) - MG" := "Pirapora"
    ]

  const AliasBlock3: map<string, string> :=
    map[
      "MOCAMBINHO (A) - MG" := "Pirapora",
      "MOELA (A) - SP" := "Itapira",
      "MONTE VERDE (A) - MG" := "Camanducaia",
      "MORRO DOS CAVALOS (C) - PI" := "São João da Serra",
      "NHUMIRIM (A) - MS" := "Corumbá",
      "NHUMIRIM (NHECOLANDIA) (C) - MS" := "Corumbá",
      "NOVA XAV.(XAVANTINA) (C) - MT" := "Nova Xavantina",
      "PADRE RICARDO REMETTER (C) - MT" := "Campo Verde",
      "PALMEIRA DA MISSÕES (A) - RS" := "Palmeira das Missões",
      "PARATÍ (A) - RJ" := "Paraty"
    ]

  const AliasBlock4: map<string, string> :=
    map[
      "PARQUE ESTADUAL CHANDLESS (A) - AC" := "Manoel Urbano",
      "PICO DO COUTO (A) - RJ" := "Petrópolis",
      "POXOREO (C) - MT" := "Poxoréu",
      "PREGUIÇAS (A) - MA" := "Barreirinhas",
      "PRES. KENNEDY (A) - ES" := "Presidente Kennedy",
      "REALENGO (C) - RJ" := "Rio de Janeiro",
      "RIO DE JANEIRO-MARAMBAIA (A) - RJ" := "Rio de Janeiro",
      "RIO URUBU (A) - AM" := "Itacoatiara",
      "SANTA MARTA (A) - SC" := "Laguna",
      "SANTANA DO LIVRAMENTO (C) - RS" := "Santana do Livramento"
    ]

  const AliasBlock5: map<string, string> :=
    map[
      "SANTANA DO LIVRAMENTO (A) - RS" := "Santana do Livramento",
      "SÃO FELIX DO ARAGUAIA (A) - MT" := "São Félix do Araguaia",
      "SÃO LUIS DO PARAITINGA (A) - SP" := "São Luís do Paraitinga",
      "SAO PAULO - MIRANTE (A) - SP" := "São Paulo",
      "SAO S.DO PARAISO (C) - MG" := "São Sebastião do Paraíso",
      "SERIDO (CAICO) (C) - RN" := "Caicó",
      "SERRA DOS CARAJÁS (A) - PA" := "Parauapebas",
      "S.G.DA CACHOEIRA(UAUPES) (C) - AM" := "São Gabriel da Cachoeira",
      "S.J. DO RIO CLARO (A) - MT" := "São José do Rio Claro",
      "STa. R. DE CASSIA (IBIPETUBA) (C) - BA" := "Santa Rita de Cássia"
    ]

  const AliasBlock6: map<string, string> :=
    map[
      "TARTARUGUALZINHO (A) - AP" := "Tartarugalzinho",
      "TOMÉ AÇU (A) - PA" := "Tomé-Açu",
      "TRÊS MARIA (A) - MG" := "Três Marias",
      "USINA JUNQUEIRA (C) - SP" := "Cravinhos",
      "VALE DO GURGUEIA (CRISTIANO CASTRO) (C) - PI" := "Cristino Castro",
      "VILA MILITAR (A) - RJ" := "Rio de Janeiro",
      "XEREM (A) - RJ" := "Duque de Caxias"
    ]

  const Aliases: map<string, string> :=
    AliasBlock0 + AliasBlock1 + AliasBlock2 + AliasBlock3 + AliasBlock4 + AliasBlock5 + AliasBlock6

  /** `ids_nao_mapeados`: municipality names resolved to an IBGE id directly. */
  const Overrides: map<string, int> :=
    map[
      "Santana do Livramento" := 430016,
      "São Félix do Araguaia" := 5107859,
      "São Luiz do Paraitinga" := 3550001
    ]

  /** The alias lookup's default when a station has no alias. */
  const NotFound: string := "local não encontrado"

  /**
   * `nome.split("(")[0].strip()`: the station name before its first
   * parenthesis, without surrounding whitespace.
   */
  function BareName(station: string): (r: string)
    ensures '(' !in r
    ensures r == [] || (!IsSpace(r[0]) && !IsSpace(r[|r| - 1]))
    ensures '(' !in station ==> r == Strip(station)
  {
    var before := SplitFirst(station, "(");
    BeforeParenthesis(station);
    StrippedChars(before);
    Strip(before)
  }

  lemma BeforeParenthesis(station: string)
    ensures '(' !in SplitFirst(station, "(")
    ensures '(' !in station ==> SplitFirst(station, "(") == station
  {
    var before := SplitFirst(station, "(");
    ContainsChar(before, '(');
    ContainsChar(station, '(');
  }

  /** Every character of a stripped string comes from the original. */
  lemma StrippedChars(s: string)
    ensures forall c :: c in Strip(s) ==> c in s
  {
    var r := Strip(s);
    var i := |s| - |TrimStart(s)|;
    assert IsStrippedAt(s, r, i);
    SliceMembers(s, r, i);
  }

  /** Every character of a slice of `s` is a character of `s`. */
  lemma SliceMembers(s: string, r: string, i: int)
    requires 0 <= i <= |s| - |r| && s[i..i + |r|] == r
    ensures forall c :: c in r ==> c in s
  {
    forall c | c in r
      ensures c in s
    {
      var k :| 0 <= k < |r| && r[k] == c;
      assert s[i..i + |r|][k] == s[i + k];
    }
  }

  /** A parenthesised suffix does not change the bare name. */
  lemma BareNameIgnoresSuffix(name: string, suffix: string)
    requires '(' !in name
    ensures BareName(name + "(" + suffix) == Strip(name)
  {
    var s := name + "(" + suffix;
    SplitFirstAtChar(s, '(', |name|);
    assert s[..|name|] == name;
  }

  /** When `c` first occurs at position `k`, splitting on `c` keeps the first `k` characters. */
  lemma SplitFirstAtChar(s: string, c: char, k: int)
    requires 0 <= k < |s| && s[k] == c && c !in s[..k]
    ensures SplitFirst(s, [c]) == s[..k]
  {
    var r := SplitFirst(s, [c]);
    ContainsChar(r, c);
    ContainsChar(s, c);
    assert |r| < |s|;
    assert s[|r|..][..1] == [c];
    assert s[|r|] == c;
    assert |r| <= k by {
      assert r == s[..|r|];
    }
    assert |r| >= k by {
      assert s[..k][|r|..] == s[|r|..k];
    }
  }

  /** Python truthiness of the id found so far: `None` and `0` both count as "not found". */
  predicate Truthy(id: Option<int>) {
    id.Some? && id.value != 0
  }

  /** `locais_associacoes.get(nome, "local não encontrado")`, keyed by the full station name. */
  function AliasTarget(station: string, aliases: map<string, string>): (r: string)
    ensures station in aliases ==> r == aliases[station]
    ensures station !in aliases ==> r == NotFound
  {
    if station in aliases then aliases[station] else NotFound
  }

  /**
   * Tiers two and three, for the alias `target` of the station: the target
   * matched against the registry, then looked up in the override table.
   */
  function ResolveByAlias(target: string, registry: seq<City>, overrides: map<string, int>): (r: Option<int>)
    ensures r.None? <==> !Truthy(FindIdByName(registry, target)) && target !in overrides
    ensures r.Some? && !Truthy(FindIdByName(registry, target)) ==> r.value == overrides[target]
    ensures Truthy(FindIdByName(registry, target)) ==> r == FindIdByName(registry, target)
  {
    var found := FindIdByName(registry, target);
    if Truthy(found) then found
    else if target in overrides then Some(overrides[target])
    else None
  }

  /**
   * The three-tier resolution of a station's municipality id: the bare
   * station name against the registry; else the alias of the full station
   * name against the registry; else the override table, looked up verbatim
   * by the alias (or by the default text when there is none). The station is
   * unresolved exactly when all three tiers fail; an earlier tier that gives
   * a truthy id decides; a 0 can only come from the override table.
   */
  function ResolveStation(station: string, registry: seq<City>,
                          aliases: map<string, string>, overrides: map<string, int>): (r: Option<int>)
    ensures r.None? <==>
      !Truthy(FindIdByName(registry, BareName(station))) &&
      !Truthy(FindIdByName(registry, AliasTarget(station, aliases))) &&
      AliasTarget(station, aliases) !in overrides
    ensures Truthy(FindIdByName(registry, BareName(station))) ==>
      r == FindIdByName(registry, BareName(station))
    ensures !Truthy(FindIdByName(registry, BareName(station))) &&
            Truthy(FindIdByName(registry, AliasTarget(station, aliases))) ==>
      r == FindIdByName(registry, AliasTarget(station, aliases))
    ensures r.Some? && !Truthy(FindIdByName(registry, BareName(station))) &&
            !Truthy(FindIdByName(registry, AliasTarget(station, aliases))) ==>
      r.value == overrides[AliasTarget(station, aliases)]
    ensures r.Some? ==> r.value != 0 || (AliasTarget(station, aliases) in overrides && overrides[AliasTarget(station, aliases)] == 0)
  {
    var found := FindIdByName(registry, BareName(station));
    if Truthy(found) then found else ResolveByAlias(AliasTarget(station, aliases), registry, overrides)
  }

  /**
   * Round trip through the whole chain: a station whose bare name is spelt
   * like a registry entry (up to case and accents) resolves to that entry's
   * id, whatever the alias and override tables say, provided the id is
   * truthy and no earlier entry has the same normalised name.
   */
  lemma ResolveOwnName(station: string, registry: seq<City>,
                       aliases: map<string, string>, overrides: map<string, int>, i: int)
    requires 0 <= i < |registry|
    requires Normalize(BareName(station)) == Normalize(registry[i].name)
    requires registry[i].id != 0
    requires forall j :: 0 <= j < i ==> Normalize(registry[j].name) != Normalize(registry[i].name)
    ensures ResolveStation(station, registry, aliases, overrides) == Some(registry[i].id)
  {
    FindOwnName(registry, i);
    FindIgnoresSpelling(registry, BareName(station), registry[i].name);
  }

  /** Once the bare name resolves, neither the alias nor the override table is consulted. */
  lemma BareNameWins(station: string, registry: seq<City>,
                     aliases: map<string, string>, overrides: map<string, int>,
                     aliases': map<string, string>, overrides': map<string, int>)
    requires Truthy(FindIdByName(registry, BareName(station)))
    ensures ResolveStation(station, registry, aliases, overrides)
         == ResolveStation(station, registry, aliases', overrides')
  {
  }

  /** The alias table is consulted only under the full, unstripped station name. */
  lemma AliasOnlyByFullName(station: string, registry: seq<City>,
                            aliases: map<string, string>, aliases': map<string, string>,
                            overrides: map<string, int>)
    requires station in aliases <==> station in aliases'
    requires station in aliases ==> aliases[station] == aliases'[station]
    ensures ResolveStation(station, registry, aliases, overrides)
         == ResolveStation(station, registry, aliases', overrides)
  {
    assert AliasTarget(station, aliases) == AliasTarget(station, aliases');
    TargetsAgree(station, registry, aliases, aliases', overrides);
  }

  /** Only the station's alias target matters, not the rest of the alias table. */
  lemma TargetsAgree(station: string, registry: seq<City>,
                     aliases: map<string, string>, aliases': map<string, string>,
                     overrides: map<string, int>)
    requires AliasTarget(station, aliases) == AliasTarget(station, aliases')
    ensures ResolveStation(station, registry, aliases, overrides)
         == ResolveStation(station, registry, aliases', overrides)
  {
  }

  /** A registry id of 0 is falsy in Python, so it falls through to the alias tiers. */
  lemma ZeroIdFallsThrough(station: string, registry: seq<City>,
                           aliases: map<string, string>, overrides: map<string, int>)
    requires FindIdByName(registry, BareName(station)) == Some(0)
    ensures ResolveStation(station, registry, aliases, overrides)
         == ResolveByAlias(AliasTarget(station, aliases), registry, overrides)
  {
  }

  /** A station without alias and with no registry match is unresolved: the default text is no override key. */
  lemma UnknownStationUnresolved(station: string, registry: seq<City>)
    requires station !in Aliases
    requires !Truthy(FindIdByName(registry, BareName(station)))
    requires !Truthy(FindIdByName(registry, NotFound))
    ensures ResolveStation(station, registry, Aliases, Overrides) == None
  {
    NotFoundIsNoOverride();
  }

  lemma NotFoundIsNoOverride()
    ensures NotFound !in Overrides
  {
  }

  lemma SantanaPieces()
    ensures '(' !in "SANTANA DO LIVRAMENTO "
    ensures "SANTANA DO LIVRAMENTO " + "(" + "A) - RS" == "SANTANA DO LIVRAMENTO (A) - RS"
  {
  }

  lemma SantanaStrip()
    ensures Strip("SANTANA DO LIVRAMENTO ") == "SANTANA DO LIVRAMENTO"
  {
    StripUnique("SANTANA DO LIVRAMENTO ", 0, 21);
  }

  lemma SantanaBareName()
    ensures BareName("SANTANA DO LIVRAMENTO (A) - RS") == "SANTANA DO LIVRAMENTO"
  {
    SantanaPieces();
    BareNameIgnoresSuffix("SANTANA DO LIVRAMENTO ", "A) - RS");
    SantanaStrip();
  }

  /**
   * "SANTANA DO LIVRAMENTO (A) - RS" resolves to 430016 through its alias and
   * the override table when the registry has no entry of that name.
   */
  lemma SantanaDoLivramento(registry: seq<City>)
    requires FindIdByName(registry, "SANTANA DO LIVRAMENTO").None?
    requires FindIdByName(registry, "Santana do Livramento").None?
    ensures ResolveStation("SANTANA DO LIVRAMENTO (A) - RS", registry, Aliases, Overrides) == Some(430016)
  {
    var station := "SANTANA DO LIVRAMENTO (A) - RS";
    SantanaBareName();
    SantanaAlias();
    SantanaOverride();
    ResolvedByOverride(station, registry, Aliases, Overrides);
  }

  /** With no registry match under either name, the override table decides. */
  lemma ResolvedByOverride(station: string, registry: seq<City>,
                           aliases: map<string, string>, overrides: map<string, int>)
    requires FindIdByName(registry, BareName(station)).None?
    requires FindIdByName(registry, AliasTarget(station, aliases)).None?
    requires AliasTarget(station, aliases) in overrides
    ensures ResolveStation(station, registry, aliases, overrides) == Some(overrides[AliasTarget(station, aliases)])
  {
  }

  lemma SantanaAlias()
    ensures AliasTarget("SANTANA DO LIVRAMENTO (A) - RS", Aliases) == "Santana do Livramento"
  {
    var k := "SANTANA DO LIVRAMENTO (A) - RS";
    SantanaInBlock5();
    var m := AliasBlock0 + AliasBlock1 + AliasBlock2 + AliasBlock3 + AliasBlock4;
    LookupLater(m, AliasBlock5, k);
    LookupEarlier(m + AliasBlock5, AliasBlock6, k);
  }

  lemma SantanaInBlock5()
    ensures "SANTANA DO LIVRAMENTO (A) - RS" in AliasBlock5
    ensures AliasBlock5["SANTANA DO LIVRAMENTO (A) - RS"] == "Santana do Livramento"
    ensures "SANTANA DO LIVRAMENTO (A) - RS" !in AliasBlock6
  {
  }

  /** A key of the right operand of a map union keeps its right-hand value. */
  lemma LookupLater(m1: map<string, string>, m2: map<string, string>, k: string)
    requires k in m2
    ensures k in m1 + m2 && (m1 + m2)[k] == m2[k]
  {
  }

  /** A key only of the left operand of a map union keeps its left-hand value. */
  lemma LookupEarlier(m1: map<string, string>, m2: map<string, string>, k: string)
    requires k in m1 && k !in m2
    ensures k in m1 + m2 && (m1 + m2)[k] == m1[k]
  {
  }

  lemma SantanaOverride()
    ensures "Santana do Livramento" in Overrides && Overrides["Santana do Livramento"] == 430016
  {
  }

  /**
   * The override "São Luiz do Paraitinga" is spelt differently from every alias
   * target (the alias says "São Luís"), so it is never consulted.
   */
  lemma UnreachableOverride(station: string, registry: seq<City>)
    ensures AliasTarget(station, Aliases) != "São Luiz do Paraitinga"
    ensures ResolveStation(station, registry, Aliases, Overrides)
         == ResolveStation(station, registry, Aliases, Overrides - {"São Luiz do Paraitinga"})
  {
    TargetNotLuiz(station, "São Luiz do Paraitinga");
    OverrideIrrelevant(station, registry, Aliases, Overrides, "São Luiz do Paraitinga");
  }

  /** An override keyed by something no lookup can produce may be dropped. */
  lemma OverrideIrrelevant(station: string, registry: seq<City>,
                           aliases: map<string, string>, overrides: map<string, int>, key: string)
    requires AliasTarget(station, aliases) != key
    ensures ResolveStation(station, registry, aliases, overrides)
         == ResolveStation(station, registry, aliases, overrides - {key})
  {
    var target := AliasTarget(station, aliases);
    var rest := overrides - {key};
    assert (target in overrides) == (target in rest);
    assert target in overrides ==> overrides[target] == rest[target];
    OverridesAgree(station, registry, aliases, overrides, rest);
  }

  /** Only the override under the station's alias target matters. */
  lemma OverridesAgree(station: string, registry: seq<City>, aliases: map<string, string>,
                       overrides: map<string, int>, overrides': map<string, int>)
    requires AliasTarget(station, aliases) in overrides <==> AliasTarget(station, aliases) in overrides'
    requires AliasTarget(station, aliases) in overrides ==>
      overrides[AliasTarget(station, aliases)] == overrides'[AliasTarget(station, aliases)]
    ensures ResolveStation(station, registry, aliases, overrides)
         == ResolveStation(station, registry, aliases, overrides')
  {
    var target := AliasTarget(station, aliases);
    if !Truthy(FindIdByName(registry, BareName(station))) && !Truthy(FindIdByName(registry, target)) {
      assert ResolveByAlias(target, registry, overrides) == ResolveByAlias(target, registry, overrides');
    }
  }

  lemma TargetNotLuiz(station: string, x: string)
    requires x == "São Luiz do Paraitinga"
    ensures AliasTarget(station, Aliases) != x
  {
    AliasTargetsAvoid(x);
    NotFoundDiffers();
    TargetAvoids(station, Aliases, x);
  }

  /** No alias target, not even the default text, equals a value the table avoids. */
  lemma TargetAvoids(station: string, aliases: map<string, string>, x: string)
    requires Avoids(aliases, x) && NotFound != x
    ensures AliasTarget(station, aliases) != x
  {
  }

  lemma NotFoundDiffers()
    ensures NotFound != "São Luiz do Paraitinga"
  {
  }

  /** No value of the alias table equals `x`. */
  ghost predicate Avoids(m: map<string, string>, x: string) {
    forall k :: k in m ==> m[k] != x
  }

  lemma UnionAvoids(m1: map<string, string>, m2: map<string, string>, x: string)
    requires Avoids(m1, x) && Avoids(m2, x)
    ensures Avoids(m1 + m2, x)
  {
  }

  lemma AliasTargetsAvoid(x: string)
    requires x == "São Luiz do Paraitinga"
    ensures Avoids(Aliases, x)
  {
    Block0Avoids(); Block1Avoids(); Block2Avoids(); Block3Avoids();
    Block4Avoids(); Block5Avoids(); Block6Avoids();
    var m := AliasBlock0;
    UnionAvoids(m, AliasBlock1, x); m := m + AliasBlock1;
    UnionAvoids(m, AliasBlock2, x); m := m + AliasBlock2;
    UnionAvoids(m, AliasBlock3, x); m := m + AliasBlock3;
    UnionAvoids(m, AliasBlock4, x); m := m + AliasBlock4;
    UnionAvoids(m, AliasBlock5, x); m := m + AliasBlock5;
    UnionAvoids(m, AliasBlock6, x); m := m + AliasBlock6;
  }

  lemma Block0Avoids() ensures Avoids(AliasBlock0, "São Luiz do Paraitinga") { }

  lemma Block1Avoids() ensures Avoids(AliasBlock1, "São Luiz do Paraitinga") { }

  lemma Block2Avoids() ensures Avoids(AliasBlock2, "São Luiz do Paraitinga") { }

  lemma Block3Avoids() ensures Avoids(AliasBlock3, "São Luiz do Paraitinga") { }

  lemma Block4Avoids() ensures Avoids(AliasBlock4, "São Luiz do Paraitinga") { }

  lemma Block5Avoids() ensures Avoids(AliasBlock5, "São Luiz do Paraitinga") { }

  lemma Block6Avoids() ensures Avoids(AliasBlock6, "São Luiz do Paraitinga") { }

  /** The label written for practice code '1', '2' or anything else. */
  function PracticeLabel(code: string): (r: string)
    ensures code == "1" <==> r == "Preparo do Solo"
    ensures code == "2" <==> r == "Semeadura"
    ensures code != "1" && code != "2" <==> r == "Colheita"
  {
    if code == "1" then "Preparo do Solo"
    else if code == "2" then "Semeadura"
    else "Colheita"
  }

  /** The three practices the scraper requests are labelled distinctly. */
  lemma PracticeLabelsDistinct()
    ensures PracticeLabel("1") != PracticeLabel("2")
    ensures PracticeLabel("2") != PracticeLabel("3")
    ensures PracticeLabel("1") != PracticeLabel("3")
    ensures PracticeLabel("3") == "Colheita"
  {
  }
}
