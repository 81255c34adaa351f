/** Results of operations that can abort.  The Rust program reports every
    failure by panicking (or by recursing without end); the model turns each
    panic cause into a `Fault` and every partial operation into a `Result`. */
module Outcome {

  /** The reasons the modelled code panics. */
  datatype Fault =
    | KmerTooLong          // init_kmer_type on a k-mer longer than 64 bases
    | InvalidCharacter     // binary_encode on a character other than A, C, G, T
    | VariantMismatch      // BitOr/BitAnd/*Assign on two different KmerType variants
    | UnsupportedVariant   // to_u16 on a variant other than U16
    | ShiftOverflow        // `<<`/`>>` by at least the bit width (overflow check)
    | EmptyReduction       // `reduce(..).unwrap()` over an empty iterator

  datatype Option<+T> = None | Some(value: T)

  datatype Result<+T> = Ok(value: T) | Err(fault: Fault) {
    predicate IsFailure() {
      Err?
    }

    function PropagateFailure<U>(): Result<U>
      requires Err?
    {
      Err(fault)
    }

    function Extract(): T
      requires Ok?
    {
      value
    }
  }

  /** Collecting an iterator of fallible items in order: the first failing
      item aborts the whole collection, otherwise every value is kept in
      order. */
  function Collect<T>(rs: seq<Result<T>>): (r: Result<seq<T>>)
    ensures r.Ok? <==> forall i :: 0 <= i < |rs| ==> rs[i].Ok?
    ensures r.Ok? ==> |r.value| == |rs| && forall i :: 0 <= i < |rs| ==> r.value[i] == rs[i].value
    ensures r.Err? ==> exists i :: 0 <= i < |rs| && rs[i] == Err(r.fault) && forall j :: 0 <= j < i ==> rs[j].Ok?
  {
    if rs == [] then Ok([])
    else if rs[0].Err? then Err(rs[0].fault)
    else
      match Collect(rs[1..])
      case Err(f) => Err(f)
      case Ok(rest) => Ok([rs[0].value] + rest)
  }

  /** Joining the collected halves of a split iterator: the left half's
      failure wins, otherwise the values are concatenated in order. */
  function Join<T>(left: Result<seq<T>>, right: Result<seq<T>>): Result<seq<T>>
  {
    match left
    case Err(f) => Err(f)
    case Ok(l) =>
      match right
      case Err(f) => Err(f)
      case Ok(r) => Ok(l + r)
  }

  /** Collecting a sequence in two halves and joining them is collecting it
      in one go. */
  lemma {:induction false} CollectSplit<T>(a: seq<Result<T>>, b: seq<Result<T>>)
    ensures Collect(a + b) == Join(Collect(a), Collect(b))
  {
    if a == [] {
      assert a + b == b;
      match Collect(b)
      case Err(_) =>
      case Ok(vs) => assert [] + vs == vs;
    } else {
      assert (a + b)[1..] == a[1..] + b;
      CollectSplit(a[1..], b);
      if a[0].Ok? {
        match Collect(a[1..])
        case Err(_) =>
        case Ok(l) =>
          match Collect(b)
          case Err(_) =>
          case Ok(r) => assert [a[0].value] + (l + r) == ([a[0].value] + l) + r;
      }
    }
  }

  /** Collecting in parallel as a work-splitting iterator does: the items are
      split in halves, each half is collected on its own and the halves are
      joined in order. */
  function ParCollect<T>(rs: seq<Result<T>>): Result<seq<T>>
    decreases |rs|
  {
    if |rs| == 0 then Ok([])
    else if |rs| == 1 then
      match rs[0]
      case Err(f) => Err(f)
      case Ok(v) => Ok([v])
    else
      var m := |rs| / 2;
      Join(ParCollect(rs[..m]), ParCollect(rs[m..]))
  }

  /** On at most one item both collections give the same result. */
  lemma ParCollectBase<T>(rs: seq<Result<T>>)
    requires |rs| <= 1
    ensures ParCollect(rs) == Collect(rs)
  {
    if |rs| == 1 {
      assert rs[1..] == [];
      match rs[0]
      case Err(_) =>
      case Ok(v) => assert [v] + [] == [v];
    }
  }

  /** One step of the parallel collection on two or more items. */
  lemma ParCollectSplit<T>(rs: seq<Result<T>>)
    requires |rs| > 1
    ensures ParCollect(rs) == Join(ParCollect(rs[..|rs| / 2]), ParCollect(rs[|rs| / 2..]))
  {
  }

  /** The parallel collection gives the same values in the same order, and
      the same first failure, as the sequential one. */
  lemma {:induction false} ParCollectIsCollect<T>(rs: seq<Result<T>>)
    ensures ParCollect(rs) == Collect(rs)
    decreases |rs|
  {
    hide Collect, ParCollect;
    if |rs| <= 1 {
      ParCollectBase(rs);
    } else {
      var m := |rs| / 2;
      ParCollectSplit(rs);
      ParCollectIsCollect(rs[..m]);
      ParCollectIsCollect(rs[m..]);
      assert rs == rs[..m] + rs[m..];
      CollectSplit(rs[..m], rs[m..]);
    }
  }
}
