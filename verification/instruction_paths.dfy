/**
  Project-relative directories of src/project_instructions.rs: their order, the
  text a snapshot stores for them, and how that text is read back.
*/
module InstructionPaths {
  import opened Wrappers

  /** A directory by its normal component names; the root is the empty one. */
  type Dir = seq<string>

  datatype Component = Normal(name: string) | CurDir | Unsafe

  /** What `Path::components` can call a normal component on Unix. */
  predicate ValidName(name: string) {
    name != "" && '/' !in name && name != "." && name != ".."
  }

  predicate ValidDir(dir: Dir) {
    forall i | 0 <= i < |dir| :: ValidName(dir[i])
  }

  // ---------- the order of directories ----------

  /** Lexicographic order over any strict order of the elements. */
  predicate Lex<T(==)>(less: (T, T) -> bool, a: seq<T>, b: seq<T>) {
    if a == [] then b != []
    else if b == [] then false
    else less(a[0], b[0]) || (a[0] == b[0] && Lex(less, a[1..], b[1..]))
  }

  ghost predicate StrictOrder<T(!new)>(less: (T, T) -> bool) {
    && (forall x :: !less(x, x))
    && (forall x, y :: x == y || less(x, y) || less(y, x))
    && (forall x, y, z :: less(x, y) && less(y, z) ==> less(x, z))
  }

  lemma {:induction false} LexTotal<T(!new)>(less: (T, T) -> bool, a: seq<T>, b: seq<T>)
    requires StrictOrder(less)
    ensures a == b || Lex(less, a, b) || Lex(less, b, a)
    ensures !Lex(less, a, a)
    decreases |a| + |b|
  {
    if a != [] {
      LexTotal(less, a[1..], []);
      if b != [] {
        LexTotal(less, a[1..], b[1..]);
        assert a == [a[0]] + a[1..] && b == [b[0]] + b[1..];
      }
    }
  }

  lemma {:induction false} LexTransitive<T(!new)>(less: (T, T) -> bool, a: seq<T>, b: seq<T>, c: seq<T>)
    requires StrictOrder(less) && Lex(less, a, b) && Lex(less, b, c)
    ensures Lex(less, a, c)
  {
    if a != [] && b != [] && c != [] && a[0] == b[0] == c[0] {
      LexTransitive(less, a[1..], b[1..], c[1..]);
    }
  }

  predicate CharLess(a: char, b: char) { a < b }

  predicate NameLess(a: string, b: string) { Lex(CharLess, a, b) }

  /** `sort_by`: fewer components first, then by name. */
  predicate DirLess(a: Dir, b: Dir) {
    |a| < |b| || (|a| == |b| && Lex(NameLess, a, b))
  }

  lemma NamesAreOrdered()
    ensures StrictOrder(NameLess)
  {
    forall x, y
      ensures !NameLess(x, x) && (x == y || NameLess(x, y) || NameLess(y, x))
    {
      LexTotal(CharLess, x, y);
    }
    forall x, y, z | NameLess(x, y) && NameLess(y, z)
      ensures NameLess(x, z)
    {
      LexTransitive(CharLess, x, y, z);
    }
  }

  lemma DirsAreOrdered(a: Dir, b: Dir, c: Dir)
    ensures !DirLess(a, a) && (a == b || DirLess(a, b) || DirLess(b, a))
    ensures DirLess(a, b) && DirLess(b, c) ==> DirLess(a, c)
  {
    NamesAreOrdered();
    LexTotal(NameLess, a, b);
    if Lex(NameLess, a, b) && Lex(NameLess, b, c) {
      LexTransitive(NameLess, a, b, c);
    }
  }

  // ---------- sorted listings ----------

  predicate Sorted(dirs: seq<Dir>) {
    forall i, j | 0 <= i < j < |dirs| :: DirLess(dirs[i], dirs[j])
  }

  function Elements(dirs: seq<Dir>): set<Dir> {
    set d | d in dirs
  }

  lemma ElementsOfCons(d: Dir, rest: seq<Dir>)
    ensures Elements([d] + rest) == {d} + Elements(rest)
  {
  }

  function Insert(dirs: seq<Dir>, dir: Dir): seq<Dir> {
    if dirs == [] then [dir]
    else if dir == dirs[0] then dirs
    else if DirLess(dir, dirs[0]) then [dir] + dirs
    else [dirs[0]] + Insert(dirs[1..], dir)
  }

  lemma {:induction false} InsertSorts(dirs: seq<Dir>, dir: Dir)
    requires Sorted(dirs)
    ensures Sorted(Insert(dirs, dir)) && Elements(Insert(dirs, dir)) == Elements(dirs) + {dir}
  {
    hide DirLess, Elements;
    ElementsOfCons(dir, dirs);
    if dirs == [] {
      assert [dir] + dirs == [dir];
      NoElements();
    } else {
      var head, tail := dirs[0], dirs[1..];
      assert dirs == [head] + tail;
      ElementsOfCons(head, tail);
      DirsAreOrdered(dir, head, dir);
      if DirLess(dir, head) {
        forall i | 0 < i < |dirs|
          ensures DirLess(dir, dirs[i])
        {
          DirsAreOrdered(dir, head, dirs[i]);
        }
      } else if dir != head {
        InsertSorts(tail, dir);
        ElementsOfCons(head, Insert(tail, dir));
        AllAfter(head, tail, dir);
      }
    }
  }

  lemma NoElements()
    ensures Elements([]) == {}
  {
  }

  lemma AllAfter(head: Dir, tail: seq<Dir>, dir: Dir)
    requires DirLess(head, dir) && forall i | 0 <= i < |tail| :: DirLess(head, tail[i])
    requires Elements(Insert(tail, dir)) == Elements(tail) + {dir}
    ensures forall i | 0 <= i < |Insert(tail, dir)| :: DirLess(head, Insert(tail, dir)[i])
  {
    hide DirLess, Insert;
    var r := Insert(tail, dir);
    forall i | 0 <= i < |r|
      ensures DirLess(head, r[i])
    {
      assert r[i] in Elements(r);
    }
  }

  /** The one sorted listing of a set of directories. */
  ghost function Listing(dirs: set<Dir>): (r: seq<Dir>)
    ensures Sorted(r) && Elements(r) == dirs
  {
    if dirs == {} then []
    else
      var d :| d in dirs;
      InsertSorts(Listing(dirs - {d}), d);
      Insert(Listing(dirs - {d}), d)
  }

  /** Two sorted lists of the same directories are the same list. */
  lemma {:induction false} SortedUnique(a: seq<Dir>, b: seq<Dir>)
    requires Sorted(a) && Sorted(b) && Elements(a) == Elements(b)
    ensures a == b
    decreases |a|
  {
    hide DirLess;
    assert forall i | 0 <= i < |a| :: a[i] in Elements(a);
    assert forall i | 0 <= i < |b| :: b[i] in Elements(b);
    if a != [] && b != [] {
      DirsAreOrdered(a[0], b[0], a[0]);
      DirsAreOrdered(b[0], a[0], b[0]);
      assert a[0] == b[0];
      TailElements(a);
      TailElements(b);
      SortedUnique(a[1..], b[1..]);
    }
  }

  lemma TailElements(a: seq<Dir>)
    requires Sorted(a) && a != []
    ensures Elements(a[1..]) == Elements(a) - {a[0]}
  {
    hide DirLess;
    assert a == [a[0]] + a[1..];
    ElementsOfCons(a[0], a[1..]);
    DirsAreOrdered(a[0], a[0], a[0]);
    assert forall i | 0 <= i < |a| - 1 :: a[1..][i] == a[i + 1];
  }

  function Keep(dirs: seq<Dir>, kept: set<Dir>): seq<Dir> {
    if dirs == [] then []
    else if dirs[0] in kept then [dirs[0]] + Keep(dirs[1..], kept)
    else Keep(dirs[1..], kept)
  }

  lemma {:induction false} KeepElements(dirs: seq<Dir>, kept: set<Dir>)
    ensures Elements(Keep(dirs, kept)) == Elements(dirs) * kept
  {
    if dirs != [] {
      KeepElements(dirs[1..], kept);
      ElementsOfCons(dirs[0], Keep(dirs[1..], kept));
      assert dirs == [dirs[0]] + dirs[1..];
      ElementsOfCons(dirs[0], dirs[1..]);
    }
  }

  lemma {:induction false} KeepSorted(dirs: seq<Dir>, kept: set<Dir>)
    requires Sorted(dirs)
    ensures Sorted(Keep(dirs, kept))
  {
    if dirs != [] {
      hide DirLess;
      var rest := Keep(dirs[1..], kept);
      KeepSorted(dirs[1..], kept);
      KeepElements(dirs[1..], kept);
      assert forall i | 0 <= i < |rest| :: rest[i] in Elements(rest);
    }
  }

  /** Listing a subset is picking its members from the listing of the whole. */
  lemma ListingOfSubset(dirs: set<Dir>, kept: set<Dir>)
    requires kept <= dirs
    ensures Listing(kept) == Keep(Listing(dirs), kept)
  {
    hide Listing, Sorted, Keep, Elements;
    KeepSorted(Listing(dirs), kept);
    KeepElements(Listing(dirs), kept);
    assert dirs * kept == kept;
    SortedUnique(Listing(kept), Keep(Listing(dirs), kept));
  }
}
