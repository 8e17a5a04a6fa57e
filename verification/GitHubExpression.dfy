/**
 Expression trees of GitHub Actions templates. Every node refers to its source by byte ranges, and
 a tree parsed from a part of a source is moved, in place, to where that part starts.
 */
module GitHubExpression {
  import opened OptionalValues
  import opened SourceSlices
  import opened Utf8

  datatype Literal = Number(bits: nat) | Text(value: seq<byte>) | Boolean(truth: bool) | Null

  datatype Builtin =
    | Contains | StartsWith | EndsWith | Format | Join | ToJson | FromJson | HashFiles | Case
    | Success | Always | Cancelled | Failure

  datatype BinaryOperator =
    | And | Or | Equal | NotEqual | GreaterThan | GreaterThanOrEqual | LessThan | LessThanOrEqual

  datatype UnaryOperator = Not

  // Trees as values

  datatype Tree = Tree(range: TextRange, form: Form)

  datatype Form =
    | LiteralForm(literal: Literal)
    | StarForm
    | GroupedForm(expression: Tree)
    | CallForm(builtin: Builtin, arguments: seq<Tree>)
    | IdentifierForm(name: seq<byte>)
    | IndexForm(index: Tree)
    | ContextForm(parts: seq<Tree>)
    | BinaryForm(left: Tree, operator: BinaryOperator, operatorRange: TextRange, right: Tree)
    | UnaryForm(prefix: UnaryOperator, prefixRange: TextRange, operand: Tree)

  /** The tree with every range in it moved by `base`. */
  function Shifted(t: Tree, base: nat): Tree {
    Tree(OffsetBy(t.range, base), ShiftedForm(t.form, base))
  }

  function ShiftedForm(form: Form, base: nat): Form {
    match form
    case LiteralForm(literal) => LiteralForm(literal)
    case StarForm => StarForm
    case GroupedForm(expression) => GroupedForm(Shifted(expression, base))
    case CallForm(builtin, arguments) =>
      CallForm(builtin, seq(|arguments|, i requires 0 <= i < |arguments| => Shifted(arguments[i], base)))
    case IdentifierForm(name) => IdentifierForm(name)
    case IndexForm(index) => IndexForm(Shifted(index, base))
    case ContextForm(parts) => ContextForm(seq(|parts|, i requires 0 <= i < |parts| => Shifted(parts[i], base)))
    case BinaryForm(left, operator, range, right) =>
      BinaryForm(Shifted(left, base), operator, OffsetBy(range, base), Shifted(right, base))
    case UnaryForm(operator, range, operand) => UnaryForm(operator, OffsetBy(range, base), Shifted(operand, base))
  }

  /** What every node and every operator of the tree reads in `source`, nested like the tree. */
  datatype Reading = Reading(text: seq<byte>, operator: Option<seq<byte>>, parts: seq<Reading>)

  function Read(t: Tree, source: seq<byte>): Reading {
    var text := Slice(source, t.range);
    match t.form
    case LiteralForm(_) => Reading(text, None, [])
    case StarForm => Reading(text, None, [])
    case IdentifierForm(_) => Reading(text, None, [])
    case GroupedForm(expression) => Reading(text, None, [Read(expression, source)])
    case IndexForm(index) => Reading(text, None, [Read(index, source)])
    case CallForm(_, arguments) =>
      Reading(text, None, seq(|arguments|, i requires 0 <= i < |arguments| => Read(arguments[i], source)))
    case ContextForm(parts) =>
      Reading(text, None, seq(|parts|, i requires 0 <= i < |parts| => Read(parts[i], source)))
    case BinaryForm(left, _, range, right) =>
      Reading(text, Some(Slice(source, range)), [Read(left, source), Read(right, source)])
    case UnaryForm(_, range, operand) => Reading(text, Some(Slice(source, range)), [Read(operand, source)])
  }

  /** Moving a tree twice moves it by the sum. */
  lemma {:induction false} ShiftsAddUp(t: Tree, a: nat, b: nat)
    ensures Shifted(Shifted(t, a), b) == Shifted(t, a + b)
  {
    match t.form {
      case LiteralForm(_) =>
      case StarForm =>
      case IdentifierForm(_) =>
      case GroupedForm(expression) => ShiftsAddUp(expression, a, b);
      case IndexForm(index) => ShiftsAddUp(index, a, b);
      case CallForm(builtin, arguments) =>
        forall i | 0 <= i < |arguments| ensures Shifted(Shifted(arguments[i], a), b) == Shifted(arguments[i], a + b) {
          ShiftsAddUp(arguments[i], a, b);
        }
        assert ShiftedForm(ShiftedForm(t.form, a), b).arguments == ShiftedForm(t.form, a + b).arguments;
      case ContextForm(parts) =>
        forall i | 0 <= i < |parts| ensures Shifted(Shifted(parts[i], a), b) == Shifted(parts[i], a + b) {
          ShiftsAddUp(parts[i], a, b);
        }
        assert ShiftedForm(ShiftedForm(t.form, a), b).parts == ShiftedForm(t.form, a + b).parts;
      case BinaryForm(left, operator, range, right) =>
        ShiftsAddUp(left, a, b);
        ShiftsAddUp(right, a, b);
      case UnaryForm(operator, range, operand) => ShiftsAddUp(operand, a, b);
    }
  }

  /** Nothing but ranges moves: a tree that is moved by nothing is the same tree. */
  lemma {:induction false} ShiftByZero(t: Tree)
    ensures Shifted(t, 0) == t
  {
    match t.form {
      case LiteralForm(_) =>
      case StarForm =>
      case IdentifierForm(_) =>
      case GroupedForm(expression) => ShiftByZero(expression);
      case IndexForm(index) => ShiftByZero(index);
      case CallForm(builtin, arguments) =>
        forall i | 0 <= i < |arguments| ensures Shifted(arguments[i], 0) == arguments[i] {
          ShiftByZero(arguments[i]);
        }
        assert ShiftedForm(t.form, 0).arguments == arguments;
      case ContextForm(parts) =>
        forall i | 0 <= i < |parts| ensures Shifted(parts[i], 0) == parts[i] {
          ShiftByZero(parts[i]);
        }
        assert ShiftedForm(t.form, 0).parts == parts;
      case BinaryForm(left, operator, range, right) =>
        ShiftByZero(left);
        ShiftByZero(right);
      case UnaryForm(operator, range, operand) => ShiftByZero(operand);
    }
  }

  /** After moving a tree past a prefix, every node and operator reads the same text as before. */
  lemma {:induction false} ShiftedTreeReadsTheSame(t: Tree, prefix: seq<byte>, source: seq<byte>)
    requires ValidUtf8(source)
    ensures Read(Shifted(t, |prefix|), prefix + source) == Read(t, source)
    decreases t
  {
    hide Slice, OffsetBy;
    SliceMoves(prefix, source, t.range);
    match t.form {
      case LiteralForm(_) =>
      case StarForm =>
      case IdentifierForm(_) =>
      case GroupedForm(expression) => ShiftedTreeReadsTheSame(expression, prefix, source);
      case IndexForm(index) => ShiftedTreeReadsTheSame(index, prefix, source);
      case CallForm(builtin, arguments) =>
        forall i | 0 <= i < |arguments|
          ensures Read(Shifted(arguments[i], |prefix|), prefix + source) == Read(arguments[i], source)
        {
          ShiftedTreeReadsTheSame(arguments[i], prefix, source);
        }
        assert Read(Shifted(t, |prefix|), prefix + source).parts == Read(t, source).parts;
      case ContextForm(parts) =>
        forall i | 0 <= i < |parts|
          ensures Read(Shifted(parts[i], |prefix|), prefix + source) == Read(parts[i], source)
        {
          ShiftedTreeReadsTheSame(parts[i], prefix, source);
        }
        assert Read(Shifted(t, |prefix|), prefix + source).parts == Read(t, source).parts;
      case BinaryForm(left, operator, range, right) =>
        ShiftedTreeReadsTheSame(left, prefix, source);
        ShiftedTreeReadsTheSame(right, prefix, source);
        SliceMoves(prefix, source, range);
      case UnaryForm(operator, range, operand) =>
        ShiftedTreeReadsTheSame(operand, prefix, source);
        SliceMoves(prefix, source, range);
    }
  }

  // Trees as objects

  ghost function Trees(nodes: seq<Node>): (trees: seq<Tree>)
    reads set n | n in nodes
    ensures |trees| == |nodes|
  {
    seq(|nodes|, i requires 0 <= i < |nodes| reads set n | n in nodes => nodes[i].tree)
  }

  /** The form of a node that owns its children. */
  datatype Kind =
    | LiteralKind(literal: Literal)
    | Star
    | Grouped(expression: Node)
    | Call(builtin: Builtin, arguments: seq<Node>)
    | Identifier(name: seq<byte>)
    | Index(index: Node)
    | Context(parts: seq<Node>)
    | Binary(left: Node, operator: BinaryOperator, operatorRange: TextRange, right: Node)
    | Unary(prefix: UnaryOperator, prefixRange: TextRange, operand: Node)
  {
    ghost function Children(): seq<Node> {
      match this
      case LiteralKind(_) => []
      case Star => []
      case Identifier(_) => []
      case Grouped(expression) => [expression]
      case Index(index) => [index]
      case Call(_, arguments) => arguments
      case Context(parts) => parts
      case Binary(left, _, _, right) => [left, right]
      case Unary(_, _, operand) => [operand]
    }

    /** The same children, and the operator moved by `base`. */
    ghost function OperatorMoved(base: nat): (moved: Kind)
      ensures moved.Children() == Children()
    {
      match this
      case Binary(left, operator, range, right) => Binary(left, operator, SourceSlices.OffsetBy(range, base), right)
      case Unary(operator, range, operand) => Unary(operator, SourceSlices.OffsetBy(range, base), operand)
      case _ => this
    }

    /** The form as a value, given the values of the children. */
    ghost function AsForm(trees: seq<Tree>): Form
      requires |trees| == |Children()|
    {
      match this
      case LiteralKind(literal) => LiteralForm(literal)
      case Star => StarForm
      case Identifier(name) => IdentifierForm(name)
      case Grouped(_) => GroupedForm(trees[0])
      case Index(_) => IndexForm(trees[0])
      case Call(builtin, _) => CallForm(builtin, trees)
      case Context(_) => ContextForm(trees)
      case Binary(_, operator, range, _) => BinaryForm(trees[0], operator, range, trees[1])
      case Unary(operator, range, _) => UnaryForm(operator, range, trees[0])
    }
  }

  /** Once all children have been moved, so has the form they make up. */
  lemma FormMoved(kind: Kind, trees: seq<Tree>, moved: seq<Tree>, base: nat)
    requires |trees| == |moved| == |kind.Children()|
    requires forall i :: 0 <= i < |trees| ==> moved[i] == Shifted(trees[i], base)
    ensures kind.OperatorMoved(base).AsForm(moved) == ShiftedForm(kind.AsForm(trees), base)
  {
  }

  class Node {
    var range: TextRange
    var kind: Kind
    ghost var repr: set<object>
    ghost var tree: Tree

    /** A node over trees that share nothing and lie in `region`. */
    constructor (range: TextRange, kind: Kind, ghost region: set<object>)
      requires var children := kind.Children();
        && (forall i :: 0 <= i < |children| ==>
              children[i].Valid() && children[i] in children[i].repr && children[i].repr <= region)
        && (forall i, j :: 0 <= i < j < |children| ==> children[i].repr !! children[j].repr)
      ensures Valid() && this.range == range && this.kind == kind && repr == {this} + region
    {
      hide Trees, Kind.AsForm, Kind.Children;
      this.range, this.kind := range, kind;
      var children := kind.Children();
      repr := {this} + region;
      tree := Tree(range, kind.AsForm(Trees(children)));
      new;
      assert forall i :: 0 <= i < |children| ==> this !in children[i].repr;
      assert forall i :: 0 <= i < |children| ==> children[i].Valid();
      assert OwnsChildren();
    }

    /** The node owns its children, which own disjoint parts of the tree. */
    ghost predicate OwnsChildren()
      reads this, repr
      decreases repr, 0
    {
      var children := kind.Children();
      && this in repr
      && (forall i :: 0 <= i < |children| ==>
            && children[i] in repr && children[i].repr <= repr && this !in children[i].repr
            && children[i] in children[i].repr && children[i].Valid())
      && (forall i, j :: 0 <= i < j < |children| ==> children[i].repr !! children[j].repr)
    }

    ghost predicate Valid()
      reads this, repr
      decreases repr, 1
    {
      this in repr && OwnsChildren() && tree == Tree(range, kind.AsForm(Trees(kind.Children())))
    }

    /** The source text covered by this node. */
    method Source(expression: seq<byte>) returns (text: seq<byte>)
      requires Valid()
      ensures text == Slice(expression, tree.range)
    {
      text := SliceWithByteOffsets(expression, range.start, range.end);
    }

    /** Moves this node and all its descendants. */
    method OffsetBy(base: nat)
      requires Valid()
      modifies repr
      ensures Valid() && repr == old(repr)
      ensures tree == Shifted(old(tree), base)
      decreases repr, 1
    {
      ghost var before, trees := kind, Trees(kind.Children());
      range := SourceSlices.OffsetBy(range, base);
      OffsetParts(base);
      FormMoved(before, trees, Trees(kind.Children()), base);
      tree := Shifted(tree, base);
    }

    /** Moves the operator and the children, which is all of the node but its own range. */
    method OffsetParts(base: nat)
      requires OwnsChildren()
      modifies repr
      ensures repr == old(repr) && range == old(range) && tree == old(tree)
      ensures kind == old(kind).OperatorMoved(base)
      ensures OwnsChildren()
      ensures var children := kind.Children();
        forall i :: 0 <= i < |children| ==> children[i].tree == Shifted(old(children[i].tree), base)
      decreases repr, 0
    {
      hide Valid, Shifted, Kind.AsForm;
      match kind {
        case LiteralKind(_) =>
        case Star =>
        case Identifier(_) =>
        case Grouped(expression) =>
          assert kind.Children()[0] == expression;
          expression.OffsetBy(base);
        case Index(index) =>
          assert kind.Children()[0] == index;
          index.OffsetBy(base);
        case Call(_, arguments) => OffsetAll(arguments, base, repr - {this});
        case Context(parts) => OffsetAll(parts, base, repr - {this});
        case Binary(left, operator, operatorRange, right) =>
          ghost var children := kind.Children();
          assert children[0] == left && children[1] == right;
          assert left.repr !! right.repr;
          left.OffsetBy(base);
          kind := Binary(left, operator, SourceSlices.OffsetBy(operatorRange, base), right);
          right.OffsetBy(base);
        case Unary(operator, operatorRange, operand) =>
          assert kind.Children()[0] == operand;
          kind := Unary(operator, SourceSlices.OffsetBy(operatorRange, base), operand);
          operand.OffsetBy(base);
      }
    }
  }

  method OffsetAll(nodes: seq<Node>, base: nat, ghost region: set<object>)
    requires forall i :: 0 <= i < |nodes| ==> nodes[i].Valid() && nodes[i] in nodes[i].repr && nodes[i].repr <= region
    requires forall i, j :: 0 <= i < j < |nodes| ==> nodes[i].repr !! nodes[j].repr
    modifies region
    ensures forall i :: 0 <= i < |nodes| ==> nodes[i].Valid() && nodes[i].repr == old(nodes[i].repr)
    ensures forall i :: 0 <= i < |nodes| ==> nodes[i].tree == Shifted(old(nodes[i].tree), base)
    decreases region, 2
  {
    hide *;
    for n := 0 to |nodes|
      invariant forall i :: 0 <= i < |nodes| ==> nodes[i].Valid() && nodes[i].repr == old(nodes[i].repr)
      invariant forall i :: 0 <= i < n ==> nodes[i].tree == Shifted(old(nodes[i].tree), base)
      invariant forall i :: n <= i < |nodes| ==> nodes[i].tree == old(nodes[i].tree)
    {
      nodes[n].OffsetBy(base);
    }
  }
}
