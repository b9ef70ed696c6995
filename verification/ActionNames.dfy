/** Names of operations and of the actions they are checked as. */
module ActionNames {
  import opened Common
  import opened Policies

  // ----- Operations -----------------------------------------------------------------

  /** The operation's name differs from the name of the action it is checked as. */
  predicate Alias(op: string, a: Action) {
    || (op in {"ListObjects", "ListObjectsV2"} && a == ListBucket)
    || (op == "DeleteObjects" && a == DeleteObject)
    || (op == "ListParts" && a == ListMultipartUploadParts)
    || (op == "ListBuckets" && a == ListAllMyBuckets)
    || (op == "ListMultipartUploads" && a == ListBucketMultipartUploads)
  }

  /** The operation has the name that its action is printed with. */
  predicate Namesake(op: string, a: Action) {
    op == ActionName(a) && a !in {ListMultipartUploadParts, ListAllMyBuckets, ListBucketMultipartUploads}
  }

  /** An operation is checked as the action of its name, but for six aliases, three of which are the
      only operations of their action; every other text is unknown. */
  lemma OperationNames(op: string, a: Action)
    ensures FromOperation(op) == Some(a) <==> Alias(op, a) || Namesake(op, a)
  {
    if FromOperation(op) == Some(a) {
      KnownOperation(op, a);
    }
    if Alias(op, a) || Namesake(op, a) {
      OperationKnown(op, a);
      var b := FromOperation(op).value;
      KnownOperation(op, b);
      OneAction(op, a, b);
    }
  }

  /** Operations that no action answers to are checked as all actions at once. */
  lemma CheckedActionExact(op: string, a: Action)
    ensures CheckedAction(op) == a <==>
            || Alias(op, a) || Namesake(op, a)
            || (a == All && forall b :: !Alias(op, b) && !Namesake(op, b))
  {
    forall b ensures FromOperation(op) == Some(b) <==> Alias(op, b) || Namesake(op, b) {
      OperationNames(op, b);
    }
    hide Alias, Namesake, FromOperation;
  }

  lemma KnownOperation(op: string, a: Action)
    requires FromOperation(op) == Some(a)
    ensures Alias(op, a) || Namesake(op, a)
  {
    hide FromBucketOperation, FromObjectOperation, Alias, Namesake;
    if FromBucketOperation(op).Some? {
      KnownBucketOperation(op, a);
    } else {
      KnownObjectOperation(op, a);
    }
  }

  lemma KnownBucketOperation(op: string, a: Action)
    requires FromBucketOperation(op) == Some(a)
    ensures Alias(op, a) || Namesake(op, a)
  {}

  lemma KnownObjectOperation(op: string, a: Action)
    requires FromObjectOperation(op) == Some(a)
    ensures Alias(op, a) || Namesake(op, a)
  {}

  lemma OperationKnown(op: string, a: Action)
    requires Alias(op, a) || Namesake(op, a)
    ensures FromOperation(op).Some?
  {}

  lemma OneAction(op: string, a: Action, b: Action)
    requires (Alias(op, a) || Namesake(op, a)) && (Alias(op, b) || Namesake(op, b))
    ensures a == b
  {
    hide Alias, Namesake, Mark, Marked;
    MarkTells(op, a);
    MarkTells(op, b);
  }

  lemma MarkTells(op: string, a: Action)
    requires Alias(op, a) || Namesake(op, a)
    ensures Marked(Mark(op)) == a
  {
    NameMark(a);
    hide ActionName;
  }

  lemma ActionNamesDiffer(a: Action, b: Action)
    ensures ActionName(a) == ActionName(b) <==> a == b
  {
    hide ActionName, Mark, Marked;
    NameMark(a);
    NameMark(b);
  }

  lemma NameMark(a: Action)
    ensures Marked(Mark(ActionName(a))) == a
  {}

  /** Length, first and seventh character, which tell all these names apart. */
  function Mark(name: string): (nat, char, char) {
    (|name|, if |name| > 0 then name[0] else ' ', if |name| > 6 then name[6] else ' ')
  }

  function Marked(mark: (nat, char, char)): Action {
    match mark
    case (9, 'G', _) => GetObject
    case (9, 'P', _) => PutObject
    case (9, _, _) => ListMultipartUploadParts
    case (10, 'L', _) => ListBucket
    case (10, 'C', _) => CopyObject
    case (10, _, 'c') => HeadBucket
    case (10, _, _) => HeadObject
    case (11, _, 'c') => ListAllMyBuckets
    case (11, _, _) => ListBucket
    case (12, 'C', _) => CreateBucket
    case (12, _, 'B') => DeleteBucket
    case (12, _, _) => DeleteObject
    case (13, 'L', _) => ListBucket
    case (13, _, _) => DeleteObject
    case (16, 'G', _) => GetBucketTagging
    case (16, 'P', _) => PutBucketTagging
    case (16, _, _) => ListAllMyBuckets
    case (17, _, _) => GetBucketLocation
    case (19, 'G', _) => GetBucketVersioning
    case (19, 'P', _) => PutBucketVersioning
    case (19, _, _) => DeleteBucketTagging
    case (20, 'A', _) => AbortMultipartUpload
    case (20, _, _) => ListBucketMultipartUploads
    case (24, _, _) => ListMultipartUploadParts
    case (26, _, _) => ListBucketMultipartUploads
    case _ => All
  }
}
