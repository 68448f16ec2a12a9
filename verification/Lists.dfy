/** Lists of names. */
module Lists {
  /** `removeOne`: the first occurrence goes. */
  function Without(list: seq<string>, name: string): seq<string> {
    if list == [] then [] else if list[0] == name then list[1..] else [list[0]] + Without(list[1..], name)
  }

  lemma WithoutStep(head: string, tail: seq<string>, name: string)
    ensures Without([head] + tail, name) == if head == name then tail else [head] + Without(tail, name)
  {
    assert ([head] + tail)[1..] == tail;
  }

  ghost predicate Distinct(list: seq<string>) {
    forall i, j :: 0 <= i < j < |list| ==> list[i] != list[j]
  }

  lemma {:induction false} NotThere(list: seq<string>, name: string)
    requires name !in list
    ensures Without(list, name) == list
  {
    if list != [] {
      NotThere(list[1..], name);
    }
  }

  lemma DistinctCons(head: string, tail: seq<string>)
    requires Distinct(tail) && head !in tail
    ensures Distinct([head] + tail)
  {
    var list := [head] + tail;
    forall i, j | 0 <= i < j < |list|
      ensures list[i] != list[j]
    {
      assert list[j] == tail[j - 1] && (i > 0 ==> list[i] == tail[i - 1]);
    }
  }

  lemma DistinctTail(head: string, tail: seq<string>)
    requires Distinct([head] + tail)
    ensures Distinct(tail) && head !in tail
  {
    var list := [head] + tail;
    forall j | 0 <= j < |tail|
      ensures tail[j] != head
    {
      assert list[0] == head && list[j + 1] == tail[j];
    }
    forall i, j | 0 <= i < j < |tail|
      ensures tail[i] != tail[j]
    {
      assert list[i + 1] == tail[i] && list[j + 1] == tail[j];
    }
  }

  lemma {:induction false} WithoutKeepsDistinct(list: seq<string>, name: string)
    requires Distinct(list)
    ensures Distinct(Without(list, name)) && forall n :: n in Without(list, name) <==> n in list && n != name
  {
    if list != [] {
      var head, tail := list[0], list[1..];
      assert list == [head] + tail;
      DistinctTail(head, tail);
      WithoutKeepsDistinct(tail, name);
      if head != name {
        DistinctCons(head, Without(tail, name));
      }
    }
  }

  lemma {:induction false} WithoutLast(list: seq<string>, name: string)
    requires name !in list
    ensures Without(list + [name], name) == list
  {
    if list == [] {
      assert list + [name] == [name];
    } else {
      WithoutLast(list[1..], name);
      assert (list + [name])[1..] == list[1..] + [name];
      assert list == [list[0]] + list[1..];
    }
  }

  /** What goes is the first occurrence, and nothing else moves. */
  lemma {:induction false} WithoutFirst(list: seq<string>, name: string, i: nat)
    requires i < |list| && list[i] == name && name !in list[..i]
    ensures Without(list, name) == list[..i] + list[i + 1..]
  {
    if i == 0 {
      assert list[..0] + list[1..] == list[1..];
    } else {
      assert list[0] == list[..i][0];
      assert list[1..][..i - 1] == list[..i][1..] && list[1..][i..] == list[i + 1..];
      WithoutFirst(list[1..], name, i - 1);
      assert list[..i] == [list[0]] + list[1..][..i - 1];
    }
  }

  lemma {:induction false} FirstPlace(list: seq<string>, name: string) returns (i: nat)
    requires name in list
    ensures i < |list| && list[i] == name && name !in list[..i]
  {
    if list[0] == name {
      i := 0;
    } else {
      assert list == [list[0]] + list[1..];
      var k := FirstPlace(list[1..], name);
      i := k + 1;
      assert list[..i] == [list[0]] + list[1..][..k];
    }
  }
}
