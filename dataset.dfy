/**
 * The recognizer's synthetic-text dataset: the records loaded from the
 * pickled list, their cleaned labels, the token vocabulary, and indexed
 * access with wrap-around.
 */
module Dataset {
  import opened Wrappers
  import opened Labels

  /** One entry of the pickled list: the image file name `fn` and its text `txt`. */
  datatype Record = Record(fn: string, txt: string)

  /**
   * What indexing the dataset gives: the image, named here by the file it
   * is opened from, and its cleaned label.
   */
  datatype Item = Item(imageName: string, text: string)

  /** Indexing an empty dataset divides by its length, zero. */
  datatype IndexError = ZeroDivision

  /** No string occurs twice in `xs`. */
  ghost predicate Distinct(xs: seq<string>)
  {
    forall i, j :: 0 <= i < j < |xs| ==> xs[i] != xs[j]
  }

  /**
   * Python's `a % n` for a positive `n`: the remainder of floor division,
   * which lies in [0, n) whatever the sign of `a`.
   */
  function FloorMod(a: int, n: int): (r: int)
    requires n > 0
    ensures 0 <= r < n
    ensures 0 <= a < n ==> r == a
    ensures -n <= a < 0 ==> r == a + n
  {
    // Dafny's % is Euclidean; for a positive divisor it agrees with Python's.
    a % n
  }

  /** The vocabulary of the labels, built label by label into a set. */
  method CollectTokens(labels: seq<string>) returns (vocab: set<string>)
    ensures vocab == Vocabulary(labels)
  {
    vocab := {};
    var i := 0;
    while i < |labels|
      invariant 0 <= i <= |labels|
      invariant vocab == Vocabulary(labels[..i])
    {
      vocab := AddTokens(vocab, Tokenize(labels[i]));
      VocabularyStep(labels, i);
      i := i + 1;
    }
    assert labels[..i] == labels;
  }

  /** Adds the tokens of one label to the set, one at a time. */
  method AddTokens(vocab: set<string>, toks: seq<string>) returns (v: set<string>)
    ensures v == vocab + SetOf(toks)
  {
    v := vocab;
    var j := 0;
    while j < |toks|
      invariant 0 <= j <= |toks|
      invariant v == vocab + SetOf(toks[..j])
    {
      assert toks[..j + 1] == toks[..j] + [toks[j]];
      SetOfSnoc(toks[..j], toks[j]);
      v := v + {toks[j]};
      j := j + 1;
    }
    assert toks[..j] == toks;
  }

  /**
   * Python's `list(s)` of a set: every element once, in an order the set
   * does not fix (each step takes any element still left).
   */
  method ListOfSet(s: set<string>) returns (xs: seq<string>)
    ensures |xs| == |s|
    ensures Distinct(xs)
    ensures forall x :: x in xs <==> x in s
  {
    xs := [];
    var rest := s;
    while rest != {}
      invariant |xs| + |rest| == |s|
      invariant Distinct(xs)
      invariant forall x :: x in s <==> x in xs || x in rest
      invariant forall x :: x in xs ==> x !in rest
      decreases |rest|
    {
      var x :| x in rest;
      xs := xs + [x];
      rest := rest - {x};
    }
  }

  /**
   * The record loop of the loader: each record's file name, and its label
   * with every run of spaces collapsed, appended in record order.
   */
  method LoadRecords(dsets: seq<Record>) returns (names: seq<string>, labels: seq<string>)
    ensures |names| == |labels| == |dsets|
    ensures forall i :: 0 <= i < |dsets| ==>
              names[i] == dsets[i].fn && labels[i] == CollapseSpaces(dsets[i].txt)
  {
    names, labels := [], [];
    var k := 0;
    while k < |dsets|
      invariant 0 <= k <= |dsets|
      invariant |names| == |labels| == k
      invariant forall i :: 0 <= i < k ==>
                  names[i] == dsets[i].fn && labels[i] == CollapseSpaces(dsets[i].txt)
    {
      names := names + [dsets[k].fn];
      labels := labels + [CollapseSpaces(dsets[k].txt)];
      k := k + 1;
    }
  }

  class DatasetSynth {
    /** Image file names, one per record. */
    var imnames: seq<string>
    /** Cleaned labels, parallel to `imnames`. */
    var txt: seq<string>
    /** The vocabulary, as a list without duplicates. */
    var tokens: seq<string>

    ghost predicate Valid()
      reads this
    {
      |imnames| == |txt| && Distinct(tokens)
    }

    /**
     * Loads the records: file names and space-collapsed labels in record
     * order, then the vocabulary of the stored labels.
     */
    constructor (dsets: seq<Record>)
      ensures Valid()
      ensures |imnames| == |dsets|
      ensures forall i :: 0 <= i < |dsets| ==>
                imnames[i] == dsets[i].fn && txt[i] == CollapseSpaces(dsets[i].txt)
      ensures forall t :: t in tokens <==> t in Vocabulary(txt)
    {
      var names, labels := LoadRecords(dsets);
      var vocab := CollectTokens(labels);
      var list := ListOfSet(vocab);
      imnames, txt, tokens := names, labels, list;
    }

    /** The number of records, which is also the number of labels. */
    function Len(): (n: nat)
      reads this
      requires Valid()
      ensures n == |imnames| && n == |txt|
    {
      |imnames|
    }

    /**
     * The record at `item`, wrapped into range with Python's modulo; an
     * empty dataset raises a division by zero.
     */
    function GetItem(item: int): (r: Result<Item, IndexError>)
      reads this
      requires Valid()
      ensures r.Failure? <==> |imnames| == 0
      ensures r.Success? ==>
                var k := FloorMod(item, |imnames|);
                r.value == Item(imnames[k], txt[k])
      ensures 0 <= item < |imnames| ==> r == Success(Item(imnames[item], txt[item]))
      ensures -|imnames| <= item < 0 ==>
                r == Success(Item(imnames[item + |imnames|], txt[item + |imnames|]))
    {
      if |imnames| == 0 then Failure(ZeroDivision)
      else
        var k := FloorMod(item, |imnames|);
        Success(Item(imnames[k], txt[k]))
    }
  }

  /** Shifting the index by the dataset's length gives the same record. */
  lemma GetItemPeriodic(d: DatasetSynth, item: int)
    requires d.Valid()
    ensures d.GetItem(item + d.Len()) == d.GetItem(item)
  {
    if d.Len() > 0 {
      FloorModPeriodic(item, d.Len());
    }
  }

  /** Python's modulo repeats with period `n`. */
  lemma FloorModPeriodic(a: int, n: int)
    requires n > 0
    ensures FloorMod(a + n, n) == FloorMod(a, n)
  {
    var q, r := a / n, a % n;
    assert a + n == n * (q + 1) + r;
    DivModUnique(a + n, n, q + 1, r);
  }

  /** A remainder in [0, n) that makes `a` a multiple of `n` plus it is `a % n`. */
  lemma DivModUnique(a: int, n: int, q: int, r: int)
    requires n > 0 && 0 <= r < n && a == n * q + r
    ensures a % n == r
  {
    var q0, r0 := a / n, a % n;
    assert a == n * q0 + r0;
    assert n * (q - q0) == r0 - r;
    if q - q0 >= 1 {
      MulAtLeast(n, q - q0);
    } else if q0 - q >= 1 {
      MulAtLeast(n, q0 - q);
    }
  }

  /** A positive multiple of a positive `n` is at least `n`. */
  lemma MulAtLeast(n: int, x: int)
    requires n > 0 && x >= 1
    ensures n * x >= n
  {
  }

  /**
   * The vocabulary of the stored labels (each record's label with its runs
   * of spaces collapsed, as the constructor keeps them) holds the empty
   * token exactly when some record's raw label is blank.
   */
  lemma EmptyTokenIffBlankLabel(labels: seq<string>, dsets: seq<Record>)
    requires |labels| == |dsets|
    requires forall i :: 0 <= i < |dsets| ==> labels[i] == CollapseSpaces(dsets[i].txt)
    ensures [] in Vocabulary(labels) <==> exists i :: 0 <= i < |dsets| && Blank(dsets[i].txt)
  {
    VocabularyMembership(labels, []);
    forall i | 0 <= i < |dsets|
      ensures [] in Tokenize(labels[i]) <==> Blank(dsets[i].txt)
    {
      CleanTokens(dsets[i].txt);
    }
  }
}
