/** capa-x/src/address.rs: the total order in which sets of addresses are iterated. */
module AddressOrder {
  import opened Features

  /** The kind of the address, then its parts, most significant first. */
  function SortKey(a: Address): seq<int> {
    match a
    case Absolute(v) => [0, v, 0, 0, 0, 0]
    case Relative(v) => [1, v, 0, 0, 0, 0]
    case File(v) => [2, v, 0, 0, 0, 0]
    case DnToken(v) => [3, v, 0, 0, 0, 0]
    case DnTokenOffset(token, offset) => [4, 0, token, offset, 0, 0]
    case Process(ppid, pid) => [5, 0, ppid, pid, 0, 0]
    case Thread(ppid, pid, tid) => [6, 0, ppid, pid, tid, 0]
    case Call(ppid, pid, tid, id) => [7, 0, ppid, pid, tid, id]
    case NoAddress => [8, 0, 0, 0, 0, 0]
  }

  predicate LexAtMost(s: seq<int>, t: seq<int>)
    requires |s| == |t|
  {
    s == [] || s[0] < t[0] || (s[0] == t[0] && LexAtMost(s[1..], t[1..]))
  }

  predicate AtMost(a: Address, b: Address) {
    LexAtMost(SortKey(a), SortKey(b))
  }

  lemma {:induction false} LexIsTotal(s: seq<int>, t: seq<int>)
    requires |s| == |t|
    ensures LexAtMost(s, t) || LexAtMost(t, s)
    ensures LexAtMost(s, t) && LexAtMost(t, s) ==> s == t
  {
    if s != [] {
      LexIsTotal(s[1..], t[1..]);
      assert s == [s[0]] + s[1..] && t == [t[0]] + t[1..];
    }
  }

  lemma {:induction false} LexIsTransitive(s: seq<int>, t: seq<int>, u: seq<int>)
    requires |s| == |t| == |u| && LexAtMost(s, t) && LexAtMost(t, u)
    ensures LexAtMost(s, u)
  {
    if s != [] && s[0] == t[0] == u[0] {
      LexIsTransitive(s[1..], t[1..], u[1..]);
    }
  }

  lemma KeyIsInjective(a: Address, b: Address)
    requires SortKey(a) == SortKey(b)
    ensures a == b
  {
    var s := SortKey(a);
    assert s[0] == SortKey(b)[0] && s[1] == SortKey(b)[1] && s[2] == SortKey(b)[2];
    assert s[3] == SortKey(b)[3] && s[4] == SortKey(b)[4] && s[5] == SortKey(b)[5];
  }

  /** Any two addresses are ordered, and equal ones are the same address. */
  lemma OrderIsTotal(a: Address, b: Address)
    ensures AtMost(a, b) || AtMost(b, a)
    ensures AtMost(a, b) && AtMost(b, a) ==> a == b
  {
    LexIsTotal(SortKey(a), SortKey(b));
    if SortKey(a) == SortKey(b) {
      KeyIsInjective(a, b);
    }
  }

  lemma LexOfSix(s: seq<int>, t: seq<int>)
    requires |s| == |t| == 6
    ensures LexAtMost(s, t) <==>
            s[0] < t[0] || (s[0] == t[0] && (s[1] < t[1] || (s[1] == t[1] && (s[2] < t[2] || (s[2] == t[2]
              && (s[3] < t[3] || (s[3] == t[3] && (s[4] < t[4] || (s[4] == t[4] && s[5] <= t[5])))))))))
  {
    var s1, t1 := s[1..], t[1..];
    var s2, t2 := s1[1..], t1[1..];
    var s3, t3 := s2[1..], t2[1..];
    var s4, t4 := s3[1..], t3[1..];
    var s5, t5 := s4[1..], t4[1..];
    assert LexAtMost(s5, t5) <==> s[5] <= t[5];
    assert LexAtMost(s4, t4) <==> s[4] < t[4] || (s[4] == t[4] && s[5] <= t[5]);
    assert LexAtMost(s3, t3) <==> s[3] < t[3] || (s[3] == t[3] && LexAtMost(s4, t4));
    assert LexAtMost(s2, t2) <==> s[2] < t[2] || (s[2] == t[2] && LexAtMost(s3, t3));
    assert LexAtMost(s1, t1) <==> s[1] < t[1] || (s[1] == t[1] && LexAtMost(s2, t2));
  }

  /** Addresses go by kind, then by their parts: of a call, the process first and the call's number last. */
  lemma OrderIsByKind(a: Address, b: Address)
    ensures AtMost(a, b) <==>
            match a
            case Absolute(v) => b.Absolute? ==> v <= b.va
            case Relative(v) => !b.Absolute? && (b.Relative? ==> v <= b.rva)
            case File(v) => !b.Absolute? && !b.Relative? && (b.File? ==> v <= b.offset)
            case DnToken(v) => !b.Absolute? && !b.Relative? && !b.File? && (b.DnToken? ==> v <= b.token)
            case DnTokenOffset(token, offset) =>
              || b.Process? || b.Thread? || b.Call? || b.NoAddress?
              || (b.DnTokenOffset? && (token < b.dnToken || (token == b.dnToken && offset <= b.dnOffset)))
            case Process(ppid, pid) =>
              || b.Thread? || b.Call? || b.NoAddress?
              || (b.Process? && (ppid < b.ppid || (ppid == b.ppid && pid <= b.pid)))
            case Thread(ppid, pid, tid) =>
              || b.Call? || b.NoAddress?
              || (b.Thread? && (ppid < b.ppid || (ppid == b.ppid && (pid < b.pid || (pid == b.pid && tid <= b.tid)))))
            case Call(ppid, pid, tid, id) =>
              || b.NoAddress?
              || (b.Call? && (ppid < b.ppid || (ppid == b.ppid && (pid < b.pid || (pid == b.pid
                                && (tid < b.tid || (tid == b.tid && id <= b.id)))))))
            case NoAddress => b.NoAddress?
  {
    LexOfSix(SortKey(a), SortKey(b));
    match a
    case Absolute(_) =>
    case Relative(_) =>
    case File(_) =>
    case DnToken(_) =>
    case DnTokenOffset(_, _) =>
    case Process(_, _) =>
    case Thread(_, _, _) =>
    case Call(_, _, _, _) =>
    case NoAddress =>
  }

  predicate IsFirst(a: Address, s: set<Address>) {
    a in s && forall b | b in s :: AtMost(a, b)
  }

  lemma FirstOfMore(rest: set<Address>, x: Address, y: Address, first: Address)
    requires IsFirst(y, rest) && (first == x || first == y) && AtMost(first, x) && AtMost(first, y)
    ensures IsFirst(first, rest + {x})
  {
    forall b | b in rest + {x} ensures AtMost(first, b) {
      if b != x {
        LexIsTransitive(SortKey(first), SortKey(y), SortKey(b));
      }
    }
  }

  lemma {:induction false} FirstExists(s: set<Address>)
    requires s != {}
    ensures exists a :: IsFirst(a, s)
  {
    var x :| x in s;
    OrderIsTotal(x, x);
    if s != {x} {
      var rest := s - {x};
      assert rest != {} by {
        assert s == rest + {x};
      }
      FirstExists(rest);
      var y :| IsFirst(y, rest);
      OrderIsTotal(x, y);
      OrderIsTotal(y, y);
      FirstOfMore(rest, x, y, if AtMost(x, y) then x else y);
      assert s == rest + {x};
    } else {
      assert IsFirst(x, s);
    }
  }

  lemma FirstIsUnique(a: Address, b: Address, s: set<Address>)
    requires IsFirst(a, s) && IsFirst(b, s)
    ensures a == b
  {
    OrderIsTotal(a, b);
  }

  /** The first address of a set. */
  function First(s: set<Address>): (a: Address)
    requires s != {}
    ensures IsFirst(a, s)
  {
    FirstExists(s);
    assert forall a, b | IsFirst(a, s) && IsFirst(b, s) :: a == b by {
      forall a, b | IsFirst(a, s) && IsFirst(b, s) ensures a == b {
        FirstIsUnique(a, b, s);
      }
    }
    var a :| IsFirst(a, s);
    a
  }

  /** The addresses of a set in order. */
  function Ascending(s: set<Address>): (r: seq<Address>)
    ensures forall a :: a in r <==> a in s
    decreases |s|
  {
    if s == {} then [] else
      var a := First(s);
      assert s == s - {a} + {a};
      [a] + Ascending(s - {a})
  }

  /** The addresses are listed once each, in ascending order. */
  ghost predicate IsAscending(r: seq<Address>) {
    forall i, j | 0 <= i < j < |r| :: AtMost(r[i], r[j]) && r[i] != r[j]
  }

  lemma FirstGoesFirst(a: Address, rest: seq<Address>)
    requires IsAscending(rest) && forall b | b in rest :: AtMost(a, b) && a != b
    ensures IsAscending([a] + rest)
  {
    assert forall j | 0 <= j < |rest| :: rest[j] in rest;
  }

  /** Every address of the set is listed once, in ascending order. */
  lemma {:induction false} AscendingIsSorted(s: set<Address>)
    ensures IsAscending(Ascending(s))
    decreases |s|
  {
    if s != {} {
      var a := First(s);
      assert s == s - {a} + {a};
      AscendingIsSorted(s - {a});
      FirstGoesFirst(a, Ascending(s - {a}));
    }
  }
}
