/**
 * The sort configuration and the comparator `filteringLogic`: a case-insensitive,
 * direction-aware strict order on one of the two name fields.
 */
module Ordering {
  import opened StringOrder
  import opened Contacts

  datatype SortType = Ascending | Descending

  datatype SortCriteria = FirstName | LastName

  /** The manager's `(sortType, sortCriteria)` pair. */
  datatype Config = Config(sortType: SortType, criteria: SortCriteria)

  /** The configuration a fresh manager starts with. */
  const DefaultConfig := Config(Ascending, FirstName)

  /** The lower-cased name the criteria selects. */
  function Key(criteria: SortCriteria, c: Contact): string
  {
    match criteria
    case FirstName => Lower(c.firstName)
    case LastName => Lower(c.lastName)
  }

  /**
   * `filteringLogic(first: a, second: b)`: whether `a` strictly precedes `b`. Names
   * that differ only in the case of their letters never precede one another.
   */
  predicate Precedes(cfg: Config, a: Contact, b: Contact)
    ensures Key(cfg.criteria, a) == Key(cfg.criteria, b) ==> !Precedes(cfg, a, b)
  {
    LessIrreflexive(Key(cfg.criteria, a));
    match cfg.sortType
    case Ascending => Less(Key(cfg.criteria, a), Key(cfg.criteria, b))
    case Descending => Less(Key(cfg.criteria, b), Key(cfg.criteria, a))
  }

  lemma PrecedesIrreflexive(cfg: Config, a: Contact)
    ensures !Precedes(cfg, a, a)
  {
    LessIrreflexive(Key(cfg.criteria, a));
  }

  lemma PrecedesTransitive(cfg: Config, a: Contact, b: Contact, c: Contact)
    requires Precedes(cfg, a, b) && Precedes(cfg, b, c)
    ensures Precedes(cfg, a, c)
  {
    var ka, kb, kc := Key(cfg.criteria, a), Key(cfg.criteria, b), Key(cfg.criteria, c);
    if cfg.sortType == Ascending {
      LessTransitive(ka, kb, kc);
    } else {
      LessTransitive(kc, kb, ka);
    }
  }

  lemma PrecedesAsymmetric(cfg: Config, a: Contact, b: Contact)
    requires Precedes(cfg, a, b)
    ensures !Precedes(cfg, b, a)
  {
    if Precedes(cfg, b, a) {
      PrecedesTransitive(cfg, a, b, a);
      PrecedesIrreflexive(cfg, a);
    }
  }

  /** Two contacts are unordered by the comparator exactly when their keys are equal. */
  lemma PrecedesTies(cfg: Config, a: Contact, b: Contact)
    ensures !Precedes(cfg, a, b) && !Precedes(cfg, b, a) <==> Key(cfg.criteria, a) == Key(cfg.criteria, b)
  {
    LessTotal(Key(cfg.criteria, a), Key(cfg.criteria, b));
    LessIrreflexive(Key(cfg.criteria, a));
  }

  /** Descending order is ascending order with the arguments swapped. */
  lemma DescendingIsConverse(criteria: SortCriteria, a: Contact, b: Contact)
    ensures Precedes(Config(Descending, criteria), a, b) == Precedes(Config(Ascending, criteria), b, a)
  {
  }

  /** No later element strictly precedes an earlier one. */
  predicate Sorted(cfg: Config, s: seq<Contact>)
  {
    forall i, j :: 0 <= i < j < |s| ==> !Precedes(cfg, s[j], s[i])
  }

  /** In a sorted sequence every earlier element has an equal key or strictly precedes every later one. */
  lemma SortedPairs(cfg: Config, s: seq<Contact>, i: int, j: int)
    requires Sorted(cfg, s)
    requires 0 <= i < j < |s|
    ensures Key(cfg.criteria, s[i]) == Key(cfg.criteria, s[j]) || Precedes(cfg, s[i], s[j])
  {
    PrecedesTies(cfg, s[i], s[j]);
  }
}
