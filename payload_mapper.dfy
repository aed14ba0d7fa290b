/** `getStat` and `mapPokemonToRetoolPayload`: one fetched creature plus its sampled moves
    become the flat record the store expects. */
module PayloadMapper {
  import opened Common
  import opened Text

  /** One `{ base_stat, stat: { name } }` entry of a creature's stat list. */
  datatype StatEntry = StatEntry(statName: string, baseStat: int)

  /** The parts of a fetched creature record the mapper reads. */
  datatype Creature = Creature(
    name: string,
    typeNames: seq<string>,       // `types[i].type.name`, in source order
    frontDefault: Option<string>, // `sprites.front_default`, None for JSON null
    stats: seq<StatEntry>)

  /** One entry of moves.json; only `name` is consumed. */
  datatype MoveEntry = MoveEntry(name: string)

  /** The record POSTed to the store; None stands for JSON null. */
  datatype SeedPayload = SeedPayload(
    name: string,
    types: string,
    sprite: Option<string>,
    attack: Option<int>,
    defense: Option<int>,
    hp: Option<int>,
    speed: Option<int>,
    moves: string)

  /** Entry i is the first one named `statName`. */
  predicate FirstMatch(stats: seq<StatEntry>, statName: string, i: int)
  {
    && 0 <= i < |stats|
    && stats[i].statName == statName
    && forall j :: 0 <= j < i ==> stats[j].statName != statName
  }

  /** What a lookup by exact name must answer: null exactly when no entry has that name,
      otherwise the base stat of the first entry that has it. */
  ghost predicate IsStatLookup(stats: seq<StatEntry>, statName: string, r: Option<int>)
  {
    && (r.None? <==> forall i :: 0 <= i < |stats| ==> stats[i].statName != statName)
    && (r.Some? ==> exists i :: FirstMatch(stats, statName, i) && r.value == stats[i].baseStat)
  }

  /** `stats.find((entry) => entry.stat.name === statName)?.base_stat ?? null`. */
  function GetStat(stats: seq<StatEntry>, statName: string): (r: Option<int>)
    ensures IsStatLookup(stats, statName, r)
  {
    if stats == [] then None
    else if stats[0].statName == statName then
      assert FirstMatch(stats, statName, 0);
      Some(stats[0].baseStat)
    else
      var r := GetStat(stats[1..], statName);
      assert r.Some? ==> exists i :: FirstMatch(stats, statName, i) && r.value == stats[i].baseStat by {
        if r.Some? {
          var i :| FirstMatch(stats[1..], statName, i) && r.value == stats[1..][i].baseStat;
          assert FirstMatch(stats, statName, i + 1);
        }
      }
      assert (forall i :: 0 <= i < |stats[1..]| ==> stats[1..][i].statName != statName)
             <==> (forall i :: 0 <= i < |stats| ==> stats[i].statName != statName) by {
        assert forall i :: 0 < i < |stats| ==> stats[i] == stats[1..][i - 1];
      }
      r
  }

  predicate UniqueStatNames(stats: seq<StatEntry>)
  {
    forall i, j :: 0 <= i < j < |stats| ==> stats[i].statName != stats[j].statName
  }

  /** The lookup is by name, not by position: when names are unique, any reordering of the
      stat list gives the same answer. */
  lemma GetStatIgnoresOrder(stats: seq<StatEntry>, reordered: seq<StatEntry>, statName: string)
    requires UniqueStatNames(stats) && multiset(reordered) == multiset(stats)
    ensures GetStat(reordered, statName) == GetStat(stats, statName)
  {
    var a, b := GetStat(stats, statName), GetStat(reordered, statName);
    forall e ensures e in stats <==> e in reordered {
      assert e in stats <==> e in multiset(stats);
      assert e in reordered <==> e in multiset(reordered);
    }
    if a.Some? {
      var i :| FirstMatch(stats, statName, i) && a.value == stats[i].baseStat;
      assert stats[i] in reordered;
      assert b.Some?;
      var k :| FirstMatch(reordered, statName, k) && b.value == reordered[k].baseStat;
      assert reordered[k] in stats;
      var m :| 0 <= m < |stats| && stats[m] == reordered[k];
      assert m == i;
    } else {
      forall k | 0 <= k < |reordered| ensures reordered[k].statName != statName {
        assert reordered[k] in stats;
      }
    }
  }

  function CapitalizedTypes(typeNames: seq<string>): (r: seq<string>)
    ensures |r| == |typeNames| && forall i :: 0 <= i < |r| ==> r[i] == Capitalize(typeNames[i])
  {
    seq(|typeNames|, i requires 0 <= i < |typeNames| => Capitalize(typeNames[i]))
  }

  function MoveNames(moves: seq<MoveEntry>): (r: seq<string>)
    ensures |r| == |moves| && forall i :: 0 <= i < |r| ==> r[i] == moves[i].name
  {
    seq(|moves|, i requires 0 <= i < |moves| => moves[i].name)
  }

  /** `mapPokemonToRetoolPayload(pokemonData, randomMoves)`. Each stat field is the lookup of
      its own exact name; the sprite passes through, null included. */
  function MapPayload(creature: Creature, randomMoves: seq<MoveEntry>): (p: SeedPayload)
    ensures p.sprite == creature.frontDefault
    ensures |p.name| == |creature.name|
    ensures |creature.name| > 0 ==> p.name[0] == ToUpper(creature.name[0])
    ensures forall i :: 1 <= i < |creature.name| ==> p.name[i] == creature.name[i]
    ensures IsStatLookup(creature.stats, "attack", p.attack)
    ensures IsStatLookup(creature.stats, "defense", p.defense)
    ensures IsStatLookup(creature.stats, "hp", p.hp)
    ensures IsStatLookup(creature.stats, "speed", p.speed)
  {
    SeedPayload(
      name := Capitalize(creature.name),
      types := Join(CapitalizedTypes(creature.typeNames)),
      sprite := creature.frontDefault,
      attack := GetStat(creature.stats, "attack"),
      defense := GetStat(creature.stats, "defense"),
      hp := GetStat(creature.stats, "hp"),
      speed := GetStat(creature.stats, "speed"),
      moves := Join(MoveNames(randomMoves)))
  }

  /** The `types` field lists every type, capitalized, in source order. */
  lemma PayloadTypesReadBack(creature: Creature, randomMoves: seq<MoveEntry>)
    requires |creature.typeNames| >= 1 && CommaFree(creature.typeNames)
    ensures var parts := Split(MapPayload(creature, randomMoves).types);
            |parts| == |creature.typeNames|
            && forall i :: 0 <= i < |parts| ==> parts[i] == Capitalize(creature.typeNames[i])
  {
    var capitalized := CapitalizedTypes(creature.typeNames);
    forall i | 0 <= i < |capitalized| ensures ',' !in capitalized[i] {
      var name := creature.typeNames[i];
      assert ',' !in name;
      forall k | 0 <= k < |capitalized[i]| ensures capitalized[i][k] != ',' {
        assert name[k] != ',';
      }
    }
    SplitJoin(capitalized);
  }

  /** The `moves` field lists the sampled moves in sample order, not catalog order. */
  lemma PayloadMovesReadBack(creature: Creature, randomMoves: seq<MoveEntry>)
    requires |randomMoves| >= 1 && CommaFree(MoveNames(randomMoves))
    ensures var parts := Split(MapPayload(creature, randomMoves).moves);
            |parts| == |randomMoves|
            && forall i :: 0 <= i < |parts| ==> parts[i] == randomMoves[i].name
  {
    SplitJoin(MoveNames(randomMoves));
  }

  /** A stat list without a "speed" entry yields `speed: null`, never 0. */
  lemma MissingStatIsNull(creature: Creature, randomMoves: seq<MoveEntry>)
    requires forall i :: 0 <= i < |creature.stats| ==> creature.stats[i].statName != "speed"
    ensures MapPayload(creature, randomMoves).speed == None
  {
  }

  /** Sampling [A, B, C, D, E] down to [C, A, E, B] gives "moves": "C, A, E, B". */
  lemma MovesFollowSampleOrder(creature: Creature)
    ensures MapPayload(creature, [MoveEntry("C"), MoveEntry("A"), MoveEntry("E"), MoveEntry("B")]).moves
            == "C, A, E, B"
  {
    var names := MoveNames([MoveEntry("C"), MoveEntry("A"), MoveEntry("E"), MoveEntry("B")]);
    assert names == ["C", "A", "E", "B"];
    assert names[1..] == ["A", "E", "B"] && names[2..] == ["E", "B"] && names[3..] == ["B"];
  }
}
