/**
 The three evaluators of enchantment requirements in foton-core/src/enchantment_helper.rs. Each
 answers with `None` where it cannot know: the damage-time one knows only entity types, the
 single-entity one knows only its entity, and the post-attack one knows the whole attack.
 */
module EnchantmentRequirements {
  import opened Wrappers

  type Identifier = string

  const PLAYER: Identifier := "minecraft:player"

  datatype Target = This | Attacker | DirectAttacker

  datatype TypePredicate = AnyType | OfType(key: Identifier) | Tagged(tag: Identifier) | UnsupportedType

  datatype VehiclePredicate = AnyVehicle | VehiclePresent | UnsupportedVehicle

  datatype FlagsPredicate = FlagsPredicate(
    isFallFlying: Option<bool>,
    isFlying: Option<bool>,
    isInWater: Option<bool>,
    unsupported: bool)

  datatype DoubleBounds = DoubleBounds(min: Option<real>, max: Option<real>)

  datatype MovementPredicate = MovementPredicate(fallDistance: Option<DoubleBounds>, unsupported: bool)

  datatype PlayerPredicate = PlayerPredicate(gameModes: seq<nat>, foodLevelMin: Option<int>, unsupported: bool)

  datatype TypeSpecific = AnySpecific | OfPlayer(player: PlayerPredicate) | UnsupportedSpecific

  datatype EntityPredicate = EntityPredicate(
    entityType: TypePredicate,
    vehicle: VehiclePredicate,
    flags: FlagsPredicate,
    movement: MovementPredicate,
    typeSpecific: TypeSpecific,
    unsupported: bool)

  datatype SourcePredicate = SourcePredicate(tags: seq<(Identifier, bool)>, isDirect: Option<bool>)

  /** A chance node is a distinct static value, so `node` names its one draw per evaluation. */
  datatype Requirements =
    | AllOf(terms: seq<Requirements>)
    | AnyOf(terms: seq<Requirements>)
    | Inverted(term: Requirements)
    | EntityProperties(entity: Target, wanted: EntityPredicate)
    | DamageSourceProperties(source: SourcePredicate)
    | RandomChance(node: nat)
    | MatchTool(items: Identifier)
    | Unsupported(condition: Identifier)

  datatype PlayerState = PlayerState(gameMode: nat, foodLevel: int)

  datatype Entity = Entity(
    key: Identifier,
    inVehicle: bool,
    fallFlying: bool,
    flyingPlayer: bool,
    inWater: bool,
    fallDistance: real,
    player: Option<PlayerState>)

  datatype DamageSource = DamageSource(tags: set<Identifier>, direct: bool)

  datatype DamageContext = DamageContext(
    thisType: Identifier,
    attackerType: Option<Identifier>,
    directAttackerType: Option<Identifier>,
    source: DamageSource)

  datatype PostAttackContext = PostAttackContext(
    victim: Entity,
    attacker: Option<Entity>,
    directAttacker: Option<Entity>,
    source: DamageSource)

  /** The type tags of the registry, and whether the draw of each chance node fell below its chance. */
  datatype World = World(tags: set<(Identifier, Identifier)>, lucky: set<nat>)

  // ------------------------------------------------------------- the predicates

  predicate FlagsConstrain(f: FlagsPredicate) {
    f.isFallFlying.Some? || f.isFlying.Some? || f.isInWater.Some? || f.unsupported
  }

  predicate MovementConstrains(m: MovementPredicate) {
    m.fallDistance.Some? || m.unsupported
  }

  predicate InBounds(b: DoubleBounds, value: real) {
    (b.min.Some? ==> value >= b.min.value) && (b.max.Some? ==> value <= b.max.value)
  }

  function TypeMatches(p: TypePredicate, key: Identifier, w: World): Option<bool> {
    match p
    case AnyType => Some(true)
    case OfType(expected) => Some(key == expected)
    case Tagged(tag) => Some((key, tag) in w.tags)
    case UnsupportedType => None
  }

  /** `entity_predicate_matches_type`: only the entity's type is known. */
  function MatchesType(p: EntityPredicate, key: Identifier, w: World): Option<bool> {
    if p.unsupported || !p.vehicle.AnyVehicle? || FlagsConstrain(p.flags) || MovementConstrains(p.movement) then None
    else
      var typed := TypeMatches(p.entityType, key, w);
      if typed.None? then None
      else if !typed.value then Some(false)
      else
        match p.typeSpecific
        case AnySpecific => Some(true)
        case UnsupportedSpecific => None
        case OfPlayer(player) =>
          if key != PLAYER then Some(false)
          else if player.unsupported || player.gameModes != [] || player.foodLevelMin.Some? then None
          else Some(true)
  }

  /** `entity_predicate_matches_entity`: the entity itself is at hand. */
  function MatchesEntity(p: EntityPredicate, e: Entity, w: World): Option<bool> {
    if p.unsupported then None
    else
      var typed := TypeMatches(p.entityType, e.key, w);
      if typed.None? then None
      else if !typed.value then Some(false)
      else if p.vehicle.UnsupportedVehicle? then None
      else if p.vehicle.VehiclePresent? && !e.inVehicle then Some(false)
      else if p.flags.unsupported then None
      else if p.flags.isFallFlying.Some? && e.fallFlying != p.flags.isFallFlying.value then Some(false)
      else if p.flags.isFlying.Some? && e.flyingPlayer != p.flags.isFlying.value then Some(false)
      else if p.flags.isInWater.Some? && e.inWater != p.flags.isInWater.value then Some(false)
      else if p.movement.unsupported then None
      else if p.movement.fallDistance.Some? && !InBounds(p.movement.fallDistance.value, e.fallDistance) then Some(false)
      else
        match p.typeSpecific
        case AnySpecific => Some(true)
        case UnsupportedSpecific => None
        case OfPlayer(player) =>
          if e.player.None? then Some(false)
          else if player.unsupported then None
          else if player.gameModes != [] && e.player.value.gameMode !in player.gameModes then Some(false)
          else if player.foodLevelMin.Some? && e.player.value.foodLevel < player.foodLevelMin.value then Some(false)
          else Some(true)
  }

  predicate SourceMatches(p: SourcePredicate, source: DamageSource) {
    && (p.isDirect.Some? ==> source.direct == p.isDirect.value)
    && forall i :: 0 <= i < |p.tags| ==> (p.tags[i].0 in source.tags) == p.tags[i].1
  }

  // ------------------------------------------------------------ strong Kleene logic

  /** What a leaf of the condition tree is known to be. */
  type Leaves = Requirements -> Option<bool>

  predicate IsLeaf(r: Requirements) {
    !r.AllOf? && !r.AnyOf? && !r.Inverted?
  }

  /** The value of a condition in Kleene's strong logic, given the values of its leaves. */
  ghost function Kleene(r: Requirements, leaf: Leaves): Option<bool>
    decreases r
  {
    match r
    case AllOf(terms) =>
      if SomeTermIs(terms, leaf, Some(false)) then Some(false) else if SomeTermIs(terms, leaf, None) then None else Some(true)
    case AnyOf(terms) =>
      if SomeTermIs(terms, leaf, Some(true)) then Some(true) else if SomeTermIs(terms, leaf, None) then None else Some(false)
    case Inverted(term) => if Kleene(term, leaf).None? then None else Some(!Kleene(term, leaf).value)
    case _ => leaf(r)
  }

  ghost predicate SomeTermIs(terms: seq<Requirements>, leaf: Leaves, state: Option<bool>)
    decreases terms
  {
    exists i :: 0 <= i < |terms| && Kleene(terms[i], leaf) == state
  }

  // ------------------------------------------------------------- the evaluators

  function KnownType(c: DamageContext, target: Target): Option<Identifier> {
    match target
    case This => Some(c.thisType)
    case Attacker => c.attackerType
    case DirectAttacker => c.directAttackerType
  }

  function TargetEntity(c: PostAttackContext, target: Target): Option<Entity> {
    match target
    case This => Some(c.victim)
    case Attacker => c.attacker
    case DirectAttacker => c.directAttacker
  }

  /** The leaves of `requirements_state`. */
  function DamageLeaf(c: DamageContext, w: World): Leaves {
    (r: Requirements) =>
      match r
      case EntityProperties(entity, wanted) =>
        var key := KnownType(c, entity);
        if key.None? then None else MatchesType(wanted, key.value, w)
      case DamageSourceProperties(source) => Some(SourceMatches(source, c.source))
      case _ => None
  }

  /** The leaves of `post_attack_requirements_state`; an entity missing from the attack fails its term. */
  function PostAttackLeaf(c: PostAttackContext, w: World): Leaves {
    (r: Requirements) =>
      match r
      case EntityProperties(entity, wanted) =>
        var target := TargetEntity(c, entity);
        if target.None? then Some(false) else MatchesEntity(wanted, target.value, w)
      case DamageSourceProperties(source) => Some(SourceMatches(source, c.source))
      case RandomChance(node) => Some(node in w.lucky)
      case _ => None
  }

  /** The leaves of `entity_requirements_state`. */
  function EntityLeaf(e: Entity, w: World): Leaves {
    (r: Requirements) =>
      match r
      case EntityProperties(entity, wanted) => if entity.This? then MatchesEntity(wanted, e, w) else None
      case RandomChance(node) => Some(node in w.lucky)
      case _ => None
  }

  /** `requirements_state`: at damage time only types and the damage source are known. */
  method RequirementsState(r: Requirements, c: DamageContext, w: World) returns (state: Option<bool>)
    ensures state == Kleene(r, DamageLeaf(c, w))
    decreases r
  {
    match r {
      case AllOf(terms) =>
        var hasUnknown := false;
        for i := 0 to |terms|
          invariant forall j :: 0 <= j < i ==> Kleene(terms[j], DamageLeaf(c, w)) != Some(false)
          invariant hasUnknown <==> exists j :: 0 <= j < i && Kleene(terms[j], DamageLeaf(c, w)) == None
        {
          var term := RequirementsState(terms[i], c, w);
          if term == Some(false) {
            return Some(false);
          } else if term == None {
            hasUnknown := true;
          }
        }
        state := if hasUnknown then None else Some(true);
      case AnyOf(terms) =>
        var hasUnknown := false;
        for i := 0 to |terms|
          invariant forall j :: 0 <= j < i ==> Kleene(terms[j], DamageLeaf(c, w)) != Some(true)
          invariant hasUnknown <==> exists j :: 0 <= j < i && Kleene(terms[j], DamageLeaf(c, w)) == None
        {
          var term := RequirementsState(terms[i], c, w);
          if term == Some(true) {
            return Some(true);
          } else if term == None {
            hasUnknown := true;
          }
        }
        state := if hasUnknown then None else Some(false);
      case Inverted(term) =>
        var matched := RequirementsState(term, c, w);
        state := if matched.None? then None else Some(!matched.value);
      case EntityProperties(entity, wanted) =>
        var key := KnownType(c, entity);
        state := if key.None? then None else MatchesType(wanted, key.value, w);
      case DamageSourceProperties(source) => state := Some(SourceMatches(source, c.source));
      case _ => state := None;
    }
  }

  /** `post_attack_requirements_state`: a named entity missing from the attack fails its term. */
  method PostAttackRequirementsState(r: Requirements, c: PostAttackContext, w: World) returns (state: Option<bool>)
    ensures state == Kleene(r, PostAttackLeaf(c, w))
    decreases r
  {
    match r {
      case AllOf(terms) =>
        var hasUnknown := false;
        for i := 0 to |terms|
          invariant forall j :: 0 <= j < i ==> Kleene(terms[j], PostAttackLeaf(c, w)) != Some(false)
          invariant hasUnknown <==> exists j :: 0 <= j < i && Kleene(terms[j], PostAttackLeaf(c, w)) == None
        {
          var term := PostAttackRequirementsState(terms[i], c, w);
          if term == Some(false) {
            return Some(false);
          } else if term == None {
            hasUnknown := true;
          }
        }
        state := if hasUnknown then None else Some(true);
      case AnyOf(terms) =>
        var hasUnknown := false;
        for i := 0 to |terms|
          invariant forall j :: 0 <= j < i ==> Kleene(terms[j], PostAttackLeaf(c, w)) != Some(true)
          invariant hasUnknown <==> exists j :: 0 <= j < i && Kleene(terms[j], PostAttackLeaf(c, w)) == None
        {
          var term := PostAttackRequirementsState(terms[i], c, w);
          if term == Some(true) {
            return Some(true);
          } else if term == None {
            hasUnknown := true;
          }
        }
        state := if hasUnknown then None else Some(false);
      case Inverted(term) =>
        var matched := PostAttackRequirementsState(term, c, w);
        state := if matched.None? then None else Some(!matched.value);
      case EntityProperties(entity, wanted) =>
        var target := TargetEntity(c, entity);
        state := if target.None? then Some(false) else MatchesEntity(wanted, target.value, w);
      case DamageSourceProperties(source) => state := Some(SourceMatches(source, c.source));
      case RandomChance(node) => state := Some(node in w.lucky);
      case _ => state := None;
    }
  }

  /** `entity_requirements_state`: nothing but one entity is known. */
  method EntityRequirementsState(r: Requirements, e: Entity, w: World) returns (state: Option<bool>)
    ensures state == Kleene(r, EntityLeaf(e, w))
    decreases r
  {
    match r {
      case AllOf(terms) =>
        var hasUnknown := false;
        for i := 0 to |terms|
          invariant forall j :: 0 <= j < i ==> Kleene(terms[j], EntityLeaf(e, w)) != Some(false)
          invariant hasUnknown <==> exists j :: 0 <= j < i && Kleene(terms[j], EntityLeaf(e, w)) == None
        {
          var term := EntityRequirementsState(terms[i], e, w);
          if term == Some(false) {
            return Some(false);
          } else if term == None {
            hasUnknown := true;
          }
        }
        state := if hasUnknown then None else Some(true);
      case AnyOf(terms) =>
        var hasUnknown := false;
        for i := 0 to |terms|
          invariant forall j :: 0 <= j < i ==> Kleene(terms[j], EntityLeaf(e, w)) != Some(true)
          invariant hasUnknown <==> exists j :: 0 <= j < i && Kleene(terms[j], EntityLeaf(e, w)) == None
        {
          var term := EntityRequirementsState(terms[i], e, w);
          if term == Some(true) {
            return Some(true);
          } else if term == None {
            hasUnknown := true;
          }
        }
        state := if hasUnknown then None else Some(false);
      case Inverted(term) =>
        var matched := EntityRequirementsState(term, e, w);
        state := if matched.None? then None else Some(!matched.value);
      case EntityProperties(This, wanted) => state := MatchesEntity(wanted, e, w);
      case RandomChance(node) => state := Some(node in w.lucky);
      case _ => state := None;
    }
  }

  // ------------------------------------------------- what an answer means

  /** The requirement's truth once every leaf has a truth value. */
  ghost predicate Meaning(r: Requirements, truth: Requirements -> bool)
    decreases r
  {
    match r
    case AllOf(terms) => forall i :: 0 <= i < |terms| ==> Meaning(terms[i], truth)
    case AnyOf(terms) => exists i :: 0 <= i < |terms| && Meaning(terms[i], truth)
    case Inverted(term) => !Meaning(term, truth)
    case _ => truth(r)
  }

  /** The truth values agree with every leaf that is known. */
  ghost predicate Completes(leaf: Leaves, truth: Requirements -> bool) {
    forall r :: IsLeaf(r) && leaf(r).Some? ==> truth(r) == leaf(r).value
  }

  /** A decided requirement keeps its answer however the unknown leaves turn out. */
  lemma {:induction false} DecidedHoldsUnderCompletions(r: Requirements, leaf: Leaves, truth: Requirements -> bool)
    requires Completes(leaf, truth) && Kleene(r, leaf).Some?
    ensures Kleene(r, leaf).value == Meaning(r, truth)
    decreases r
  {
    match r {
      case AllOf(terms) => TermsHoldUnderCompletions(terms, leaf, truth);
      case AnyOf(terms) => TermsHoldUnderCompletions(terms, leaf, truth);
      case Inverted(term) => DecidedHoldsUnderCompletions(term, leaf, truth);
      case _ => assert IsLeaf(r);
    }
  }

  lemma {:induction false} TermsHoldUnderCompletions(terms: seq<Requirements>, leaf: Leaves, truth: Requirements -> bool)
    requires Completes(leaf, truth)
    ensures forall i :: 0 <= i < |terms| && Kleene(terms[i], leaf).Some? ==> Kleene(terms[i], leaf).value == Meaning(terms[i], truth)
    decreases terms
  {
    forall i | 0 <= i < |terms| && Kleene(terms[i], leaf).Some?
      ensures Kleene(terms[i], leaf).value == Meaning(terms[i], truth)
    {
      DecidedHoldsUnderCompletions(terms[i], leaf, truth);
    }
  }

  /** The terms of every conjunction and disjunction, at any depth, are permuted or repeated. */
  ghost predicate Reordered(a: Requirements, b: Requirements)
    decreases a, 2
  {
    match a
    case AllOf(terms) => b.AllOf? && TermsReordered(terms, b.terms)
    case AnyOf(terms) => b.AnyOf? && TermsReordered(terms, b.terms)
    case Inverted(term) => b.Inverted? && Reordered(term, b.term)
    case _ => a == b
  }

  /** Every term on either side has its counterpart on the other. */
  ghost predicate TermsReordered(a: seq<Requirements>, b: seq<Requirements>)
    decreases a, 2
  {
    && (forall i :: 0 <= i < |a| ==> OccursIn(a[i], b))
    && (forall j :: 0 <= j < |b| ==> ComesFrom(a, b[j]))
  }

  ghost predicate OccursIn(x: Requirements, b: seq<Requirements>)
    decreases x, 3
  {
    exists j :: 0 <= j < |b| && Reordered(x, b[j])
  }

  ghost predicate ComesFrom(a: seq<Requirements>, y: Requirements)
    decreases a, 1
  {
    exists i :: 0 <= i < |a| && Reordered(a[i], y)
  }

  lemma {:induction false} ReorderedSelf(r: Requirements)
    ensures Reordered(r, r)
    decreases r
  {
    match r {
      case AllOf(terms) => PermutedTerms(terms, terms);
      case AnyOf(terms) => PermutedTerms(terms, terms);
      case Inverted(term) => ReorderedSelf(term);
      case _ =>
    }
  }

  /** A permutation of the terms is a reordering. */
  lemma {:induction false} PermutedTerms(a: seq<Requirements>, b: seq<Requirements>)
    requires multiset(a) == multiset(b)
    ensures TermsReordered(a, b)
    decreases a
  {
    hide Reordered, OccursIn, ComesFrom;
    forall i | 0 <= i < |a|
      ensures Reordered(a[i], a[i])
    {
      ReorderedSelf(a[i]);
    }
    forall i | 0 <= i < |a|
      ensures OccursIn(a[i], b)
    {
      TermFound(a, b, i);
      Counterpart(a, b, i);
    }
    forall j | 0 <= j < |b|
      ensures ComesFrom(a, b[j])
    {
      TermFound(b, a, j);
      Origin(a, b, j);
    }
  }

  lemma TermFound(a: seq<Requirements>, b: seq<Requirements>, i: nat)
    requires multiset(a) == multiset(b) && i < |a|
    ensures exists j :: 0 <= j < |b| && b[j] == a[i]
  {
    assert a[i] in multiset(b);
  }

  lemma Counterpart(a: seq<Requirements>, b: seq<Requirements>, i: nat)
    requires i < |a| && Reordered(a[i], a[i]) && exists j :: 0 <= j < |b| && b[j] == a[i]
    ensures OccursIn(a[i], b)
  {
    hide Reordered;
    var j :| 0 <= j < |b| && b[j] == a[i];
    assert Reordered(a[i], b[j]);
  }

  lemma Origin(a: seq<Requirements>, b: seq<Requirements>, j: nat)
    requires j < |b| && (forall i :: 0 <= i < |a| ==> Reordered(a[i], a[i])) && exists i :: 0 <= i < |a| && a[i] == b[j]
    ensures ComesFrom(a, b[j])
  {
    hide Reordered;
    var i :| 0 <= i < |a| && a[i] == b[j];
    assert Reordered(a[i], b[j]);
  }

  lemma {:induction false} OrderDoesNotMatter(a: Requirements, b: Requirements, leaf: Leaves)
    requires Reordered(a, b)
    ensures Kleene(a, leaf) == Kleene(b, leaf)
    decreases a
  {
    hide SomeTermIs, TermsReordered;
    match a {
      case AllOf(terms) => SameStates(terms, b.terms, leaf);
      case AnyOf(terms) => SameStates(terms, b.terms, leaf);
      case Inverted(term) => OrderDoesNotMatter(term, b.term, leaf);
      case _ =>
    }
  }

  lemma {:induction false} SameStates(a: seq<Requirements>, b: seq<Requirements>, leaf: Leaves)
    requires TermsReordered(a, b)
    ensures forall state :: SomeTermIs(a, leaf, state) <==> SomeTermIs(b, leaf, state)
    decreases a
  {
    hide Kleene, Reordered;
    forall state
      ensures SomeTermIs(a, leaf, state) ==> SomeTermIs(b, leaf, state)
    {
      if SomeTermIs(a, leaf, state) {
        var i :| 0 <= i < |a| && Kleene(a[i], leaf) == state;
        assert OccursIn(a[i], b);
        var j :| 0 <= j < |b| && Reordered(a[i], b[j]);
        OrderDoesNotMatter(a[i], b[j], leaf);
      }
    }
    forall state
      ensures SomeTermIs(b, leaf, state) ==> SomeTermIs(a, leaf, state)
    {
      if SomeTermIs(b, leaf, state) {
        var j :| 0 <= j < |b| && Kleene(b[j], leaf) == state;
        assert ComesFrom(a, b[j]);
        var i :| 0 <= i < |a| && Reordered(a[i], b[j]);
        OrderDoesNotMatter(a[i], b[j], leaf);
      }
    }
  }

  // ------------------------------------------------------------ the refinement

  /** The second set of leaves decides whatever the first decides, the same way. */
  ghost predicate Refines(less: Leaves, more: Leaves) {
    forall r :: IsLeaf(r) && less(r).Some? ==> more(r) == less(r)
  }

  /** Kleene's connectives are monotone: knowing more never changes a decided answer. */
  lemma {:induction false} RefinedEvaluation(r: Requirements, less: Leaves, more: Leaves)
    requires Refines(less, more) && Kleene(r, less).Some?
    ensures Kleene(r, more) == Kleene(r, less)
    decreases r
  {
    match r {
      case AllOf(terms) => RefinedTerms(terms, less, more);
      case AnyOf(terms) => RefinedTerms(terms, less, more);
      case Inverted(term) => RefinedEvaluation(term, less, more);
      case _ => assert IsLeaf(r);
    }
  }

  lemma {:induction false} RefinedTerms(terms: seq<Requirements>, less: Leaves, more: Leaves)
    requires Refines(less, more)
    ensures forall i :: 0 <= i < |terms| && Kleene(terms[i], less).Some? ==> Kleene(terms[i], more) == Kleene(terms[i], less)
    decreases terms
  {
    forall i | 0 <= i < |terms| && Kleene(terms[i], less).Some?
      ensures Kleene(terms[i], more) == Kleene(terms[i], less)
    {
      RefinedEvaluation(terms[i], less, more);
    }
  }

  /** `as_player` answers for players and for nothing else. */
  predicate WellTyped(e: Entity) {
    e.player.Some? <==> e.key == PLAYER
  }

  /** No part of the predicate is one the server cannot judge. */
  predicate Understood(p: EntityPredicate) {
    && !p.unsupported && !p.entityType.UnsupportedType? && !p.vehicle.UnsupportedVehicle?
    && !p.flags.unsupported && !p.movement.unsupported && !p.typeSpecific.UnsupportedSpecific?
    && (p.typeSpecific.OfPlayer? ==> !p.typeSpecific.player.unsupported)
  }

  /** Every constraint the predicate sets is met; what it leaves out constrains nothing. */
  predicate Satisfies(e: Entity, p: EntityPredicate, w: World) {
    && (p.entityType.OfType? ==> e.key == p.entityType.key)
    && (p.entityType.Tagged? ==> (e.key, p.entityType.tag) in w.tags)
    && (p.vehicle.VehiclePresent? ==> e.inVehicle)
    && (p.flags.isFallFlying.Some? ==> p.flags.isFallFlying.value == e.fallFlying)
    && (p.flags.isFlying.Some? ==> p.flags.isFlying.value == e.flyingPlayer)
    && (p.flags.isInWater.Some? ==> p.flags.isInWater.value == e.inWater)
    && (p.movement.fallDistance.Some? ==>
          && (p.movement.fallDistance.value.min.Some? ==> p.movement.fallDistance.value.min.value <= e.fallDistance)
          && (p.movement.fallDistance.value.max.Some? ==> e.fallDistance <= p.movement.fallDistance.value.max.value))
    && (p.typeSpecific.OfPlayer? ==>
          && e.player.Some?
          && (|p.typeSpecific.player.gameModes| > 0 ==> e.player.value.gameMode in p.typeSpecific.player.gameModes)
          && (p.typeSpecific.player.foodLevelMin.Some? ==> p.typeSpecific.player.foodLevelMin.value <= e.player.value.foodLevel))
  }

  /** An entity matches exactly when all is understood and met, and false is never a guess. */
  lemma MatchedExactly(p: EntityPredicate, e: Entity, w: World)
    ensures MatchesEntity(p, e, w) == Some(true) <==> Understood(p) && Satisfies(e, p, w)
    ensures MatchesEntity(p, e, w) == Some(false) ==> !Satisfies(e, p, w)
    ensures MatchesEntity(p, e, w) == None ==> !Understood(p)
  {
  }

  /** What the type alone decides, the entity decides identically. */
  lemma TypeDecisionsHold(p: EntityPredicate, e: Entity, w: World)
    requires WellTyped(e) && MatchesType(p, e.key, w).Some?
    ensures MatchesEntity(p, e, w) == MatchesType(p, e.key, w)
  {
  }

  /** The damage-time context knows the types of the entities of this attack. */
  predicate Describes(d: DamageContext, c: PostAttackContext) {
    && d.source == c.source
    && d.thisType == c.victim.key && WellTyped(c.victim)
    && (d.attackerType.Some? ==> c.attacker.Some? && d.attackerType.value == c.attacker.value.key && WellTyped(c.attacker.value))
    && (d.directAttackerType.Some? ==>
          c.directAttacker.Some? && d.directAttackerType.value == c.directAttacker.value.key && WellTyped(c.directAttacker.value))
  }

  /** Whatever damage time decides, post-attack decides identically. */
  lemma PostAttackRefinesDamage(r: Requirements, d: DamageContext, c: PostAttackContext, w: World)
    requires Describes(d, c) && Kleene(r, DamageLeaf(d, w)).Some?
    ensures Kleene(r, PostAttackLeaf(c, w)) == Kleene(r, DamageLeaf(d, w))
  {
    var less, more := DamageLeaf(d, w), PostAttackLeaf(c, w);
    forall l | IsLeaf(l) && less(l).Some?
      ensures more(l) == less(l)
    {
      if l.EntityProperties? {
        TypeDecisionsHold(l.wanted, TargetEntity(c, l.entity).value, w);
      }
    }
    RefinedEvaluation(r, less, more);
  }

  /** Whatever the evaluator of one entity decides, post-attack decides identically of it as the victim. */
  lemma PostAttackRefinesEntity(r: Requirements, c: PostAttackContext, w: World)
    requires Kleene(r, EntityLeaf(c.victim, w)).Some?
    ensures Kleene(r, PostAttackLeaf(c, w)) == Kleene(r, EntityLeaf(c.victim, w))
  {
    RefinedEvaluation(r, EntityLeaf(c.victim, w), PostAttackLeaf(c, w));
  }

  /** Wind Burst asks how its wielder moves, which only the post-attack evaluator can answer. */
  lemma WindBurstNeedsPostAttack(d: DamageContext, c: PostAttackContext, w: World, bounds: DoubleBounds)
    requires c.directAttacker.Some?
    ensures var asks := EntityPredicate(AnyType, AnyVehicle, FlagsPredicate(None, Some(false), None, false),
                                        MovementPredicate(Some(bounds), false), AnySpecific, false);
            var windBurst := AllOf([DamageSourceProperties(SourcePredicate([], Some(true))), EntityProperties(DirectAttacker, asks)]);
            && Kleene(windBurst, DamageLeaf(d, w)) != Some(true)
            && (Kleene(windBurst, PostAttackLeaf(c, w)) == Some(true) <==>
                  c.source.direct && !c.directAttacker.value.flyingPlayer && InBounds(bounds, c.directAttacker.value.fallDistance))
  {
    var asks := EntityPredicate(AnyType, AnyVehicle, FlagsPredicate(None, Some(false), None, false),
                                MovementPredicate(Some(bounds), false), AnySpecific, false);
    var terms := [DamageSourceProperties(SourcePredicate([], Some(true))), EntityProperties(DirectAttacker, asks)];
    assert Kleene(terms[0], DamageLeaf(d, w)) == DamageLeaf(d, w)(terms[0]) && Kleene(terms[1], DamageLeaf(d, w)) == DamageLeaf(d, w)(terms[1]);
    assert Kleene(terms[0], PostAttackLeaf(c, w)) == PostAttackLeaf(c, w)(terms[0]);
    assert Kleene(terms[1], PostAttackLeaf(c, w)) == PostAttackLeaf(c, w)(terms[1]);
  }

  // --------------------------------------------------- what the leaves stand for

  /** All tags expected of the source are there, none that is ruled out is, and it is as direct as asked. */
  ghost predicate SourceFits(p: SourcePredicate, source: DamageSource) {
    && (forall t :: (t, true) in p.tags ==> t in source.tags)
    && (forall t :: (t, false) in p.tags ==> t !in source.tags)
    && (p.isDirect == Some(true) ==> source.direct)
    && (p.isDirect == Some(false) ==> !source.direct)
  }

  /** At damage time and post-attack alike, a term about the source is decided, and by nothing else. */
  lemma SourceTermExactly(p: SourcePredicate, d: DamageContext, c: PostAttackContext, e: Entity, w: World)
    ensures Kleene(DamageSourceProperties(p), DamageLeaf(d, w)) == Some(SourceFits(p, d.source))
    ensures Kleene(DamageSourceProperties(p), PostAttackLeaf(c, w)) == Some(SourceFits(p, c.source))
    ensures Kleene(DamageSourceProperties(p), EntityLeaf(e, w)) == None
  {
    TagsFit(p, d.source);
    TagsFit(p, c.source);
  }

  lemma TagsFit(p: SourcePredicate, source: DamageSource)
    ensures SourceMatches(p, source) <==> SourceFits(p, source)
  {
    if SourceMatches(p, source) {
      forall t | (t, true) in p.tags
        ensures t in source.tags
      {
        var i :| 0 <= i < |p.tags| && p.tags[i] == (t, true);
      }
      forall t | (t, false) in p.tags
        ensures t !in source.tags
      {
        var i :| 0 <= i < |p.tags| && p.tags[i] == (t, false);
      }
    }
    if SourceFits(p, source) {
      forall i | 0 <= i < |p.tags|
        ensures (p.tags[i].0 in source.tags) == p.tags[i].1
      {
        assert p.tags[i] == (p.tags[i].0, p.tags[i].1) && p.tags[i] in p.tags;
      }
    }
  }

  /** A term about an entity is judged by that entity: victim, attacker or direct attacker. */
  lemma EntityTermsExactly(wanted: EntityPredicate, d: DamageContext, c: PostAttackContext, e: Entity, w: World)
    ensures Kleene(EntityProperties(This, wanted), PostAttackLeaf(c, w)) == MatchesEntity(wanted, c.victim, w)
    ensures Kleene(EntityProperties(Attacker, wanted), PostAttackLeaf(c, w))
         == if c.attacker == None then Some(false) else MatchesEntity(wanted, c.attacker.value, w)
    ensures Kleene(EntityProperties(DirectAttacker, wanted), PostAttackLeaf(c, w))
         == if c.directAttacker == None then Some(false) else MatchesEntity(wanted, c.directAttacker.value, w)
    ensures Kleene(EntityProperties(This, wanted), DamageLeaf(d, w)) == MatchesType(wanted, d.thisType, w)
    ensures Kleene(EntityProperties(Attacker, wanted), DamageLeaf(d, w))
         == if d.attackerType == None then None else MatchesType(wanted, d.attackerType.value, w)
    ensures Kleene(EntityProperties(DirectAttacker, wanted), DamageLeaf(d, w))
         == if d.directAttackerType == None then None else MatchesType(wanted, d.directAttackerType.value, w)
    ensures Kleene(EntityProperties(This, wanted), EntityLeaf(e, w)) == MatchesEntity(wanted, e, w)
    ensures Kleene(EntityProperties(Attacker, wanted), EntityLeaf(e, w)) == None
    ensures Kleene(EntityProperties(DirectAttacker, wanted), EntityLeaf(e, w)) == None
  {
  }

  /** Draws are known to the two later evaluators; what nobody models is never known. */
  lemma OtherTermsExactly(node: nat, name: Identifier, d: DamageContext, c: PostAttackContext, e: Entity, w: World)
    ensures Kleene(RandomChance(node), PostAttackLeaf(c, w)) == Some(node in w.lucky) == Kleene(RandomChance(node), EntityLeaf(e, w))
    ensures Kleene(RandomChance(node), DamageLeaf(d, w)) == None
    ensures forall r :: r == MatchTool(name) || r == Unsupported(name) ==>
              Kleene(r, DamageLeaf(d, w)) == Kleene(r, PostAttackLeaf(c, w)) == Kleene(r, EntityLeaf(e, w)) == None
  {
  }

  /** Nothing but the type, or being a player, is asked, and in terms the server can judge. */
  predicate AsksOnlyType(p: EntityPredicate) {
    && !p.unsupported && p.entityType != UnsupportedType && p.vehicle == AnyVehicle
    && p.flags == FlagsPredicate(None, None, None, false)
    && p.movement == MovementPredicate(None, false)
  }

  predicate HasType(p: EntityPredicate, key: Identifier, w: World) {
    && (p.entityType.OfType? ==> p.entityType.key == key)
    && (p.entityType.Tagged? ==> (key, p.entityType.tag) in w.tags)
  }

  /** From the type alone a predicate is decided exactly when it asks no more than that. */
  lemma TypeMatchedExactly(p: EntityPredicate, key: Identifier, w: World)
    ensures MatchesType(p, key, w) == Some(true) <==>
              AsksOnlyType(p) && HasType(p, key, w)
              && (p.typeSpecific == AnySpecific
                  || (key == "minecraft:player" && p.typeSpecific == OfPlayer(PlayerPredicate([], None, false))))
    ensures MatchesType(p, key, w) == Some(false) <==>
              AsksOnlyType(p) && (!HasType(p, key, w) || (p.typeSpecific.OfPlayer? && key != "minecraft:player"))
  {
  }

  /** A conjunction holds when all terms do and fails when one does; a disjunction the other way round. */
  lemma ConnectivesExactly(terms: seq<Requirements>, leaf: Leaves)
    ensures Kleene(AllOf(terms), leaf) == Some(true) <==> forall i :: 0 <= i < |terms| ==> Kleene(terms[i], leaf) == Some(true)
    ensures Kleene(AllOf(terms), leaf) == Some(false) <==> exists i :: 0 <= i < |terms| && Kleene(terms[i], leaf) == Some(false)
    ensures Kleene(AnyOf(terms), leaf) == Some(true) <==> exists i :: 0 <= i < |terms| && Kleene(terms[i], leaf) == Some(true)
    ensures Kleene(AnyOf(terms), leaf) == Some(false) <==> forall i :: 0 <= i < |terms| ==> Kleene(terms[i], leaf) == Some(false)
  {
    forall i | 0 <= i < |terms|
      ensures Kleene(terms[i], leaf) == None || Kleene(terms[i], leaf) == Some(true) || Kleene(terms[i], leaf) == Some(false)
    {
      Three(Kleene(terms[i], leaf));
    }
  }

  lemma Three(state: Option<bool>)
    ensures state == None || state == Some(true) || state == Some(false)
  {
    if state.Some? {
      assert state == Some(state.value) && (state.value == true || state.value == false);
    }
  }

  /** With every leaf known, every condition is decided. */
  lemma {:induction false} KnownLeavesDecide(r: Requirements, leaf: Leaves)
    requires forall l :: IsLeaf(l) ==> leaf(l).Some?
    ensures Kleene(r, leaf).Some?
    decreases r
  {
    match r {
      case AllOf(terms) => KnownTermsDecide(terms, leaf);
      case AnyOf(terms) => KnownTermsDecide(terms, leaf);
      case Inverted(term) => KnownLeavesDecide(term, leaf);
      case _ => assert IsLeaf(r);
    }
  }

  lemma {:induction false} KnownTermsDecide(terms: seq<Requirements>, leaf: Leaves)
    requires forall l :: IsLeaf(l) ==> leaf(l).Some?
    ensures forall i :: 0 <= i < |terms| ==> Kleene(terms[i], leaf).Some?
    decreases terms
  {
    forall i | 0 <= i < |terms|
      ensures Kleene(terms[i], leaf).Some?
    {
      KnownLeavesDecide(terms[i], leaf);
    }
  }

  /** Fire Protection asks for fire that does not bypass invulnerability, and damage time can tell. */
  lemma FireProtectionAtDamageTime(d: DamageContext, c: PostAttackContext, w: World)
    ensures var asks := SourcePredicate([("minecraft:is_fire", true), ("minecraft:bypasses_invulnerability", false)], None);
            && Kleene(AllOf([DamageSourceProperties(asks)]), DamageLeaf(d, w))
               == Some("minecraft:is_fire" in d.source.tags && "minecraft:bypasses_invulnerability" !in d.source.tags)
            && Kleene(AllOf([DamageSourceProperties(asks)]), PostAttackLeaf(c, w))
               == Some("minecraft:is_fire" in c.source.tags && "minecraft:bypasses_invulnerability" !in c.source.tags)
  {
    var fire, bypass := ("minecraft:is_fire", true), ("minecraft:bypasses_invulnerability", false);
    var asks := SourcePredicate([fire, bypass], None);
    var term := DamageSourceProperties(asks);
    assert fire in asks.tags && bypass in asks.tags;
    forall t | t in asks.tags
      ensures t == fire || t == bypass
    {
    }
    SourceTermExactly(asks, d, c, c.victim, w);
    assert [term][0] == term;
    ConnectivesExactly([term], DamageLeaf(d, w));
    ConnectivesExactly([term], PostAttackLeaf(c, w));
  }
}
