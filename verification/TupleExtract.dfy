/**
  Taking several mutable references out of a tuple list at once.

  A tuple list is a sequence of elements with a type, a name and an identity; a handle is a type and a name.
 */
module TupleExtract {
  import opened Common

  datatype Key = Key(typeId: nat, name: string)

  /** An element of a tuple list; `id` tells elements with the same type and name apart. */
  datatype Element = Element(key: Key, id: nat)

  /** No element occurs twice: every mutable reference is unique. */
  ghost predicate Distinct(list: seq<Element>) {
    forall i, j :: 0 <= i < j < |list| ==> list[i] != list[j]
  }

  // ----- the code -----

  /** `Merge::merge`. */
  function Merge<T>(left: seq<T>, right: seq<T>): seq<T> {
    if left == [] then right else [left[0]] + Merge(left[1..], right)
  }

  /** `MatchName::match_name`: the first element with the type and name of the handle. */
  function MatchName(list: seq<Element>, h: Key): Option<Element> {
    if list == [] then None
    else if list[0].key == h then Some(list[0])
    else MatchName(list[1..], h)
  }

  /** `GetAll::get_all`: every handle is looked up in the whole list. */
  function GetAll(list: seq<Element>, handles: seq<Key>): (r: seq<Option<Element>>)
    ensures |r| == |handles|
  {
    if handles == [] then [] else [MatchName(list, handles[0])] + GetAll(list, handles[1..])
  }

  /**
    `StackedExtract::extract`: `visited` holds the elements that the first handle has already been compared with.
    A match is stashed and the search for the next handle starts over on the list without it.
   */
  function Extract(list: seq<Element>, handles: seq<Key>, visited: seq<Element>): (r: seq<Option<Element>>)
    ensures |r| == |handles|
    decreases |handles|, |list|
  {
    if handles == [] then []
    else if list == [] then [None] + Extract(visited, handles[1..], [])
    else if list[0].key == handles[0] then [Some(list[0])] + Extract(Merge(visited, list[1..]), handles[1..], [])
    else Extract(list[1..], handles, Merge(visited, [list[0]]))
  }

  /** `GetAll::get_all_mut`. */
  function GetAllMut(list: seq<Element>, handles: seq<Key>): (r: seq<Option<Element>>)
    ensures |r| == |handles|
  {
    Extract(list, handles, [])
  }

  // ----- reference definitions -----

  /** The `n`-th element with the given key, counting from 0. */
  function NthMatch(list: seq<Element>, h: Key, n: nat): Option<Element> {
    if list == [] then None
    else if list[0].key == h then (if n == 0 then Some(list[0]) else NthMatch(list[1..], h, n - 1))
    else NthMatch(list[1..], h, n)
  }

  /** How often a handle occurs. */
  function Count(handles: seq<Key>, h: Key): nat {
    if handles == [] then 0 else (if handles[0] == h then 1 else 0) + Count(handles[1..], h)
  }

  /** The list without its first element with the given key. */
  function WithoutFirst(list: seq<Element>, h: Key): seq<Element> {
    if list == [] then []
    else if list[0].key == h then list[1..]
    else [list[0]] + WithoutFirst(list[1..], h)
  }

  // ----- merge -----

  lemma {:induction false} MergeIsConcat<T>(left: seq<T>, right: seq<T>)
    ensures Merge(left, right) == left + right
  {
    if left != [] {
      MergeIsConcat(left[1..], right);
      assert left == [left[0]] + left[1..];
    } else {
      assert left + right == right;
    }
  }

  // ----- extraction -----

  ghost predicate NoMatch(list: seq<Element>, h: Key) {
    forall e :: e in list ==> e.key != h
  }

  lemma {:induction false} WithoutFirstSkips(visited: seq<Element>, list: seq<Element>, h: Key)
    requires NoMatch(visited, h)
    ensures WithoutFirst(visited + list, h) == visited + WithoutFirst(list, h)
  {
    if visited == [] {
      assert visited + list == list;
    } else {
      var rest := visited[1..];
      assert (visited + list)[1..] == rest + list;
      WithoutFirstSkips(rest, list, h);
      assert visited == [visited[0]] + rest;
    }
  }

  /** One round of the extraction: the first match is taken and the search goes on without it. */
  lemma {:induction false} ExtractRound(list: seq<Element>, handles: seq<Key>, visited: seq<Element>)
    requires handles != [] && NoMatch(visited, handles[0])
    ensures Extract(list, handles, visited) ==
            [MatchName(list, handles[0])] + Extract(WithoutFirst(visited + list, handles[0]), handles[1..], [])
    decreases |list|
  {
    var h := handles[0];
    WithoutFirstSkips(visited, list, h);
    if list == [] {
      assert visited + [] == visited;
    } else if list[0].key == h {
      MergeIsConcat(visited, list[1..]);
    } else {
      MergeIsConcat(visited, [list[0]]);
      ExtractRound(list[1..], handles, visited + [list[0]]);
      assert visited + [list[0]] + list[1..] == visited + list;
    }
  }

  lemma {:induction false} MatchIsNth(list: seq<Element>, h: Key)
    ensures MatchName(list, h) == NthMatch(list, h, 0)
  {
    if list != [] {
      MatchIsNth(list[1..], h);
    }
  }

  /** Taking the first match of `h` out shifts the matches of `h` by one and keeps those of other handles. */
  lemma {:induction false} NthWithoutFirst(list: seq<Element>, h: Key, h': Key, n: nat)
    ensures NthMatch(WithoutFirst(list, h), h', n) ==
            if h' == h then NthMatch(list, h, n + 1) else NthMatch(list, h', n)
  {
    if list != [] && list[0].key != h {
      var rest := WithoutFirst(list[1..], h);
      assert WithoutFirst(list, h) == [list[0]] + rest && ([list[0]] + rest)[1..] == rest;
      NthWithoutFirst(list[1..], h, h', if list[0].key == h' && n > 0 then n - 1 else n);
    }
  }

  /** The `j`-th handle gets the match whose number is how often the same handle came before. */
  lemma {:induction false} GetAllMutClosedForm(list: seq<Element>, handles: seq<Key>, j: nat)
    requires j < |handles|
    ensures GetAllMut(list, handles)[j] == NthMatch(list, handles[j], Count(handles[..j], handles[j]))
    decreases |handles|
  {
    var h := handles[0];
    ExtractRound(list, handles, []);
    assert [] + list == list;
    MatchIsNth(list, h);
    if j > 0 {
      var list', handles' := WithoutFirst(list, h), handles[1..];
      GetAllMutClosedForm(list', handles', j - 1);
      assert handles[..j][1..] == handles'[..j - 1];
      NthWithoutFirst(list, h, handles[j], Count(handles'[..j - 1], handles[j]));
    }
  }

  lemma {:induction false} GetAllClosedForm(list: seq<Element>, handles: seq<Key>, j: nat)
    requires j < |handles|
    ensures GetAll(list, handles)[j] == NthMatch(list, handles[j], 0)
  {
    if j == 0 {
      MatchIsNth(list, handles[0]);
    } else {
      GetAllClosedForm(list, handles[1..], j - 1);
    }
  }

  // ----- consequences -----

  /** A match is an element of the list with the right key. */
  lemma {:induction false} NthIsMatch(list: seq<Element>, h: Key, n: nat)
    ensures NthMatch(list, h, n).Some? ==> NthMatch(list, h, n).value in list && NthMatch(list, h, n).value.key == h
  {
    if list != [] {
      NthIsMatch(list[1..], h, if list[0].key == h && n > 0 then n - 1 else n);
    }
  }

  /** Matches with different numbers are different elements. */
  lemma {:induction false} NthDistinct(list: seq<Element>, h: Key, m: nat, n: nat)
    requires Distinct(list) && m < n && NthMatch(list, h, n).Some?
    ensures NthMatch(list, h, m).Some? && NthMatch(list, h, m) != NthMatch(list, h, n)
  {
    if list[0].key == h {
      if m == 0 {
        NthIsMatch(list[1..], h, n - 1);
      } else {
        NthDistinct(list[1..], h, m - 1, n - 1);
      }
    } else {
      NthDistinct(list[1..], h, m, n);
    }
  }

  lemma {:induction false} CountGrows(handles: seq<Key>, i: nat, j: nat)
    requires i < j < |handles| && handles[i] == handles[j]
    ensures Count(handles[..i], handles[j]) < Count(handles[..j], handles[j])
  {
    assert handles[..j][1..] == handles[1..][..j - 1];
    if i > 0 {
      assert handles[..i][1..] == handles[1..][..i - 1];
      CountGrows(handles[1..], i - 1, j - 1);
    }
  }

  lemma {:induction false} CountZero(handles: seq<Key>, h: Key)
    ensures Count(handles, h) == 0 <==> forall i :: 0 <= i < |handles| ==> handles[i] != h
  {
    if handles != [] {
      CountZero(handles[1..], h);
      assert forall i :: 1 <= i < |handles| ==> handles[i] == handles[1..][i - 1];
      assert forall i :: 0 <= i < |handles[1..]| ==> handles[1..][i] == handles[i + 1];
    }
  }

  /** No element is handed out twice: all returned mutable references are different. */
  lemma GetAllMutDistinct(list: seq<Element>, handles: seq<Key>, i: nat, j: nat)
    requires Distinct(list) && i < j < |handles|
    ensures var r := GetAllMut(list, handles);
            r[i].Some? && r[j].Some? ==> r[i].value != r[j].value
  {
    GetAllMutClosedForm(list, handles, i);
    GetAllMutClosedForm(list, handles, j);
    var (m, n) := (Count(handles[..i], handles[i]), Count(handles[..j], handles[j]));
    NthIsMatch(list, handles[i], m);
    NthIsMatch(list, handles[j], n);
    if handles[i] == handles[j] && NthMatch(list, handles[j], n).Some? {
      CountGrows(handles, i, j);
      NthDistinct(list, handles[j], m, n);
    }
  }

  /** Element `x` of the list was handed out to one of the first `j` handles. */
  ghost predicate Taken(list: seq<Element>, handles: seq<Key>, j: nat, x: Element)
    requires j <= |handles|
  {
    exists i :: 0 <= i < j && GetAllMut(list, handles)[i] == Some(x)
  }

  lemma {:induction false} CountReaches(handles: seq<Key>, h: Key, j: nat, m: nat) returns (i: nat)
    requires j <= |handles| && m < Count(handles[..j], h)
    ensures i < j && handles[i] == h && Count(handles[..i], h) == m
  {
    var first := handles[0];
    assert handles[..j][1..] == handles[1..][..j - 1];
    if first == h && m == 0 {
      i := 0;
    } else {
      var i' := CountReaches(handles[1..], h, j - 1, if first == h then m - 1 else m);
      i := i' + 1;
      assert handles[..i][1..] == handles[1..][..i'];
    }
  }

  /** The position of a match, and how many matches lie before it. */
  lemma {:induction false} MatchNumber(list: seq<Element>, p: nat) returns (m: nat)
    requires p < |list|
    ensures NthMatch(list, list[p].key, m) == Some(list[p])
    ensures forall n: nat :: n < m ==> NthMatch(list, list[p].key, n).Some?
  {
    if p == 0 {
      m := 0;
    } else {
      var m' := MatchNumber(list[1..], p - 1);
      m := if list[0].key == list[p].key then m' + 1 else m';
      forall n: nat | n < m ensures NthMatch(list, list[p].key, n).Some? {
        if list[0].key == list[p].key && n > 0 {
          assert NthMatch(list[1..], list[p].key, n - 1).Some?;
        }
      }
    }
  }

  /** The matches come in list order. */
  lemma {:induction false} NthOrdered(list: seq<Element>, h: Key, m: nat, n: nat) returns (p: nat, q: nat)
    requires m < n && NthMatch(list, h, n).Some?
    ensures p < q < |list| && NthMatch(list, h, m) == Some(list[p]) && NthMatch(list, h, n) == Some(list[q])
  {
    if list[0].key == h {
      if m == 0 {
        var q' := NthPosition(list[1..], h, n - 1);
        p, q := 0, q' + 1;
      } else {
        var p', q' := NthOrdered(list[1..], h, m - 1, n - 1);
        p, q := p' + 1, q' + 1;
      }
    } else {
      var p', q' := NthOrdered(list[1..], h, m, n);
      p, q := p' + 1, q' + 1;
    }
  }

  lemma {:induction false} NthPosition(list: seq<Element>, h: Key, n: nat) returns (p: nat)
    requires NthMatch(list, h, n).Some?
    ensures p < |list| && NthMatch(list, h, n) == Some(list[p])
  {
    if list[0].key == h && n == 0 {
      p := 0;
    } else {
      var p' := NthPosition(list[1..], h, if list[0].key == h then n - 1 else n);
      p := p' + 1;
    }
  }

  /**
    Each handle gets the first element in list order that matches it and that no earlier handle took, and None exactly
    if there is no such element.
   */
  lemma GetAllMutFirstUntaken(list: seq<Element>, handles: seq<Key>, j: nat)
    requires Distinct(list) && j < |handles|
    ensures var r := GetAllMut(list, handles)[j];
            && (r.None? ==> forall p :: 0 <= p < |list| && list[p].key == handles[j] ==>
                  Taken(list, handles, j, list[p]))
            && (r.Some? ==> exists q :: 0 <= q < |list| && list[q] == r.value && list[q].key == handles[j] &&
                                        !Taken(list, handles, j, list[q]) &&
                                        forall p :: 0 <= p < q && list[p].key == handles[j] ==>
                                              Taken(list, handles, j, list[p]))
  {
    var h := handles[j];
    var n := Count(handles[..j], h);
    GetAllMutClosedForm(list, handles, j);
    var r := NthMatch(list, h, n);
    forall p | 0 <= p < |list| && list[p].key == h && (r.Some? ==> exists q :: p < q < |list| && list[q] == r.value)
      ensures Taken(list, handles, j, list[p])
    {
      var m := MatchNumber(list, p);
      EarlierMatchTaken(list, handles, j, p, m);
    }
    if r.Some? {
      var q := NthPosition(list, h, n);
      NthIsMatch(list, h, n);
      assert !Taken(list, handles, j, list[q]) by {
        forall i | 0 <= i < j ensures GetAllMut(list, handles)[i] != Some(list[q]) {
          GetAllMutDistinct(list, handles, i, j);
        }
      }
    }
  }

  /**
    A match that lies before the one handed out, or any match if none is handed out, was taken by an earlier handle.
   */
  lemma EarlierMatchTaken(list: seq<Element>, handles: seq<Key>, j: nat, p: nat, m: nat)
    requires Distinct(list) && j < |handles| && p < |list| && list[p].key == handles[j]
    requires NthMatch(list, handles[j], m) == Some(list[p])
    requires forall n: nat :: n < m ==> NthMatch(list, handles[j], n).Some?
    requires var r := NthMatch(list, handles[j], Count(handles[..j], handles[j]));
             r.Some? ==> exists q :: p < q < |list| && list[q] == r.value
    ensures Taken(list, handles, j, list[p])
  {
    var h := handles[j];
    var n := Count(handles[..j], h);
    if m > n {
      var a, b := NthOrdered(list, h, n, m);
    }
    assert m < n;
    var i := CountReaches(handles, h, j, m);
    GetAllMutClosedForm(list, handles, i);
    assert GetAllMut(list, handles)[i] == Some(list[p]);
  }

  /**
    `get_all_mut` agrees with `get_all` if and only if no handle that matches anything occurs twice.
   */
  lemma AgreesIffNoRepeat(list: seq<Element>, handles: seq<Key>)
    requires Distinct(list)
    ensures GetAllMut(list, handles) == GetAll(list, handles) <==>
            forall i, j :: 0 <= i < j < |handles| && handles[i] == handles[j] ==> MatchName(list, handles[j]).None?
  {
    forall j | 0 <= j < |handles|
      ensures GetAllMut(list, handles)[j] == GetAll(list, handles)[j] <==>
              MatchName(list, handles[j]).None? || forall i :: 0 <= i < j ==> handles[i] != handles[j]
    {
      var n := Count(handles[..j], handles[j]);
      GetAllMutClosedForm(list, handles, j);
      GetAllClosedForm(list, handles, j);
      MatchIsNth(list, handles[j]);
      CountZero(handles[..j], handles[j]);
      assert (forall i :: 0 <= i < j ==> handles[i] != handles[j]) <==>
          (forall i :: 0 <= i < |handles[..j]| ==> handles[..j][i] != handles[j]);
      if n > 0 && NthMatch(list, handles[j], n).Some? {
        NthDistinct(list, handles[j], 0, n);
      }
      if n > 0 && NthMatch(list, handles[j], 0).None? {
        NoFirstNoNth(list, handles[j], n);
      }
    }
  }

  lemma {:induction false} NoFirstNoNth(list: seq<Element>, h: Key, n: nat)
    requires NthMatch(list, h, 0).None?
    ensures NthMatch(list, h, n).None?
  {
    if list != [] {
      NoFirstNoNth(list[1..], h, n);
    }
  }
}
