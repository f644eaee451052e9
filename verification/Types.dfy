// The values stored in an entity graph.
module Types {

  datatype Option<+T> = None | Some(value: T)

  // Record ids and times; only their equality and order matter.
  type Uuid = nat
  type Time = int

  datatype EntityType = Technology | Concept | Problem | Solution | Decision | CodeComponent

  datatype RelationType =
    RequiredBy | LeadsTo | RelatedTo | ConflictsWith | DependsOn | Implements | CausedBy | Solves
  {
    // How strongly the relation ties its entities together.
    function Weight(): (w: real)
      ensures 0.0 < w <= 1.0
      ensures w == 1.0 <==> this in {CausedBy, DependsOn, Implements, Solves}
      ensures w == 0.8 <==> this in {LeadsTo, RequiredBy}
      ensures w == 0.6 <==> this == ConflictsWith
      ensures w == 0.4 <==> this == RelatedTo
    {
      match this
      case DependsOn | Implements | Solves | CausedBy => 1.0
      case RequiredBy | LeadsTo => 0.8
      case ConflictsWith => 0.6
      case RelatedTo => 0.4
    }

    // Position in declaration order, the derived ordering.
    function Rank(): (r: nat)
      ensures r < 8
      ensures [RequiredBy, LeadsTo, RelatedTo, ConflictsWith, DependsOn, Implements, CausedBy, Solves][r] == this
    {
      match this
      case RequiredBy => 0
      case LeadsTo => 1
      case RelatedTo => 2
      case ConflictsWith => 3
      case DependsOn => 4
      case Implements => 5
      case CausedBy => 6
      case Solves => 7
    }
  }

  // A directed relation between two named entities.
  datatype Relation = Relation(from: string, to: string, kind: RelationType, context: string)

  datatype EntityData = EntityData(
    name: string,
    kind: EntityType,
    firstMentioned: Time,
    lastMentioned: Time,
    mentionCount: nat,
    importance: real,
    description: Option<string>,
    aliases: seq<string>)
}
