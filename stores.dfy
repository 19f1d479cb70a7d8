/**
 The two stores behind the enroll endpoint and the instructor read endpoints,
 reduced to their contents: the DynamoDB tables (classes keyed by (term, class),
 enrollments keyed by (term, "{class}-{cwid}"), waitlist participation keyed by
 (cwid, term), dropped students) and the Redis sorted sets named
 "{class}-{term}" that hold the waitlists.
 */
module Stores {
  import opened Wrappers
  import opened Decimal

  datatype ClassKey = ClassKey(term: string, classCode: string)

  datatype ClassItem = ClassItem(roomCapacity: int, instructorId: int, enrollmentCount: int)

  datatype EnrollmentItem = EnrollmentItem(term: string, enrollmentSlug: string, studentCwid: int, classCode: string)

  datatype DroppedItem = DroppedItem(term: string, classCode: string, studentCwid: int)

  datatype ParticipationKey = ParticipationKey(cwid: int, term: string)

  /** A sorted-set member: its name (the student's cwid as a string) and its score (the join time in milliseconds). */
  datatype Member = Member(name: string, score: int)

  /** The enrollment table's sort key `{class}-{cwid}`. */
  function EnrollmentSlug(classCode: string, cwid: int): string {
    classCode + "-" + IntToString(cwid)
  }

  /** The name of a class's waitlist set, `{class}-{term}`. */
  function WaitlistName(classCode: string, term: string): string {
    classCode + "-" + term
  }

  /**
   Within one term distinct classes have distinct waitlists, and one class
   has a distinct waitlist in each term.
   */
  lemma WaitlistNameDistinct(class1: string, term1: string, class2: string, term2: string)
    requires term1 == term2 || class1 == class2
    ensures WaitlistName(class1, term1) == WaitlistName(class2, term2) <==> class1 == class2 && term1 == term2
  {
    var n1, n2 := WaitlistName(class1, term1), WaitlistName(class2, term2);
    assert n1[..|class1|] == class1 && n1[|class1| + 1..] == term1;
    assert n2[..|class2|] == class2 && n2[|class2| + 1..] == term2;
    if n1 == n2 {
      assert |class1| == |class2| && |term1| == |term2|;
      assert class1 == n1[..|class1|] == n2[..|class2|] == class2;
      assert term1 == n1[|class1| + 1..] == n2[|class2| + 1..] == term2;
    }
  }

  /** The characters after the last dash (all of s when it has none). */
  function AfterLastDash(s: string): (r: string)
    ensures '-' !in r
    ensures |r| <= |s| && r == s[|s| - |r|..]
  {
    if s == [] || s[|s| - 1] == '-' then [] else AfterLastDash(s[..|s| - 1]) + [s[|s| - 1]]
  }

  /** A numeral after a dash is exactly what follows the last dash. */
  lemma {:induction false} AfterLastDashOfNumeral(a: string, d: string)
    requires AllDigits(d)
    ensures AfterLastDash(a + "-" + d) == d
  {
    if d != [] {
      var d' := d[..|d| - 1];
      assert (a + "-" + d)[..|a + "-" + d| - 1] == a + "-" + d';
      AfterLastDashOfNumeral(a, d');
      assert d == d' + [d[|d| - 1]];
    }
  }

  /** Slugs of non-negative cwids are distinct for distinct (class, cwid) pairs: the part after the last dash is the cwid. */
  lemma EnrollmentSlugInjective(class1: string, cwid1: nat, class2: string, cwid2: nat)
    ensures EnrollmentSlug(class1, cwid1) == EnrollmentSlug(class2, cwid2) <==> class1 == class2 && cwid1 == cwid2
  {
    if EnrollmentSlug(class1, cwid1) == EnrollmentSlug(class2, cwid2) {
      var n1, n2 := IntToString(cwid1), IntToString(cwid2);
      var s := EnrollmentSlug(class1, cwid1);
      AfterLastDashOfNumeral(class1, n1);
      AfterLastDashOfNumeral(class2, n2);
      assert s[..|s| - |n1| - 1] == class1;
      assert s[..|s| - |n2| - 1] == class2;
      IntToStringInjective(cwid1, cwid2);
    }
  }

  /** GetItem on the enrollment table: is there an item with this (term, enrollment_slug) key? */
  predicate HasEnrollment(items: seq<EnrollmentItem>, term: string, slug: string) {
    exists i :: 0 <= i < |items| && items[i].term == term && items[i].enrollmentSlug == slug
  }

  /** A query on an index keyed by (term, class): the items of that class, in store order. */
  function OfClass<T(!new)>(items: seq<T>, classOf: T -> ClassKey, key: ClassKey): (r: seq<T>)
    ensures |r| <= |items|
    ensures forall x :: x in r <==> x in items && classOf(x) == key
  {
    if items == [] then []
    else (if classOf(items[0]) == key then [items[0]] else []) + OfClass(items[1..], classOf, key)
  }

  lemma {:induction false} OfClassAppend<T(!new)>(items: seq<T>, x: T, classOf: T -> ClassKey, key: ClassKey)
    ensures OfClass(items + [x], classOf, key) == OfClass(items, classOf, key) + (if classOf(x) == key then [x] else [])
  {
    if items != [] {
      assert (items + [x])[1..] == items[1..] + [x];
      OfClassAppend(items[1..], x, classOf, key);
    }
  }

  /** A query on the `class_enrollment` index: the enrollment items of one (term, class), in store order. */
  function ClassEnrollment(items: seq<EnrollmentItem>, term: string, classCode: string): (r: seq<EnrollmentItem>)
    ensures |r| <= |items|
    ensures forall x :: x in r <==> x in items && x.term == term && x.classCode == classCode
  {
    OfClass(items, (x: EnrollmentItem) => ClassKey(x.term, x.classCode), ClassKey(term, classCode))
  }

  lemma ClassEnrollmentAppend(items: seq<EnrollmentItem>, x: EnrollmentItem, term: string, classCode: string)
    ensures ClassEnrollment(items + [x], term, classCode)
            == ClassEnrollment(items, term, classCode) + (if x.term == term && x.classCode == classCode then [x] else [])
  {
    OfClassAppend(items, x, (x: EnrollmentItem) => ClassKey(x.term, x.classCode), ClassKey(term, classCode));
  }

  /** A query on the `class_dropped_students` index: the dropped-student items of one (term, class), in store order. */
  function ClassDropped(items: seq<DroppedItem>, term: string, classCode: string): (r: seq<DroppedItem>)
    ensures |r| <= |items|
    ensures forall x :: x in r <==> x in items && x.term == term && x.classCode == classCode
  {
    OfClass(items, (x: DroppedItem) => ClassKey(x.term, x.classCode), ClassKey(term, classCode))
  }

  // ---------------------------------------------------------------------------
  // Redis sorted sets

  /** Byte-wise comparison of member names, which is how Redis orders members of equal score. */
  predicate NameLess(a: string, b: string) {
    if a == [] then b != []
    else b != [] && (a[0] < b[0] || (a[0] == b[0] && NameLess(a[1..], b[1..])))
  }

  lemma {:induction false} NameLessTransitive(a: string, b: string, c: string)
    requires NameLess(a, b) && NameLess(b, c)
    ensures NameLess(a, c)
  {
    if a != [] && a[0] == b[0] && b[0] == c[0] {
      NameLessTransitive(a[1..], b[1..], c[1..]);
    }
  }

  lemma {:induction false} NameLessTotal(a: string, b: string)
    requires a != b
    ensures NameLess(a, b) || NameLess(b, a)
  {
    if a != [] && b != [] && a[0] == b[0] {
      assert a == [a[0]] + a[1..] && b == [b[0]] + b[1..];
      NameLessTotal(a[1..], b[1..]);
    }
  }

  /** Rank order: lower score first, equal scores by name. */
  predicate Before(a: Member, b: Member) {
    a.score < b.score || (a.score == b.score && NameLess(a.name, b.name))
  }

  /** The members are listed in rank order, each name once: a well-formed sorted set. */
  predicate WellFormedSet(zs: seq<Member>) {
    forall i, j :: 0 <= i < j < |zs| ==> Before(zs[i], zs[j]) && zs[i].name != zs[j].name
  }

  /** `ZRANK ... != None`: the name is a member. */
  predicate IsMember(zs: seq<Member>, name: string) {
    exists i :: 0 <= i < |zs| && zs[i].name == name
  }

  /** The members of a set; a key that does not exist reads as the empty set. */
  function Members(sets: map<string, seq<Member>>, name: string): seq<Member> {
    if name in sets then sets[name] else []
  }

  /** `ZADD` of a new member: it goes in front of the first member that ranks after it. */
  function ZAdd(zs: seq<Member>, m: Member): (r: seq<Member>)
    ensures |r| == |zs| + 1
    ensures multiset(r) == multiset(zs) + multiset{m}
  {
    if zs == [] || Before(m, zs[0]) then [m] + zs
    else
      assert zs == [zs[0]] + zs[1..];
      [zs[0]] + ZAdd(zs[1..], m)
  }

  lemma {:induction false} ZAddMembers(zs: seq<Member>, m: Member, x: Member)
    ensures x in ZAdd(zs, m) <==> x in zs || x == m
  {
    assert x in multiset(ZAdd(zs, m)) <==> x in multiset(zs) + multiset{m};
  }

  /** Adding a name that is not yet a member keeps the set well formed. */
  lemma {:induction false} ZAddKeepsWellFormed(zs: seq<Member>, m: Member)
    requires WellFormedSet(zs) && !IsMember(zs, m.name)
    ensures WellFormedSet(ZAdd(zs, m))
  {
    if zs != [] && !Before(m, zs[0]) {
      var tail := zs[1..];
      assert WellFormedSet(tail) by {
        forall i, j | 0 <= i < j < |tail| ensures Before(tail[i], tail[j]) && tail[i].name != tail[j].name {
          assert tail[i] == zs[i + 1] && tail[j] == zs[j + 1];
        }
      }
      assert !IsMember(tail, m.name) by {
        forall i | 0 <= i < |tail| ensures tail[i].name != m.name {
          assert tail[i] == zs[i + 1];
        }
      }
      ZAddKeepsWellFormed(tail, m);
      var rest := ZAdd(tail, m);
      assert zs[0].name != m.name;
      assert Before(zs[0], m) by {
        if zs[0].score == m.score {
          NameLessTotal(zs[0].name, m.name);
        }
      }
      forall k | 0 <= k < |rest| ensures Before(zs[0], rest[k]) && zs[0].name != rest[k].name {
        assert rest[k] in rest;
        ZAddMembers(tail, m, rest[k]);
        if rest[k] != m {
          var j :| 0 <= j < |tail| && tail[j] == rest[k];
          assert zs[j + 1] == rest[k];
        }
      }
      assert ZAdd(zs, m) == [zs[0]] + rest;
    } else if zs != [] {
      forall k | 0 <= k < |zs| ensures Before(m, zs[k]) && m.name != zs[k].name {
        if k > 0 {
          assert Before(zs[0], zs[k]);
          if m.score == zs[0].score && zs[0].score == zs[k].score {
            NameLessTransitive(m.name, zs[0].name, zs[k].name);
          }
        }
      }
    }
  }

  /** A member scored later than every current member is appended, so its rank is the old size. */
  lemma {:induction false} ZAddLatestGoesLast(zs: seq<Member>, m: Member)
    requires forall i :: 0 <= i < |zs| ==> zs[i].score < m.score
    ensures ZAdd(zs, m) == zs + [m]
  {
    if zs != [] {
      assert !Before(m, zs[0]);
      ZAddLatestGoesLast(zs[1..], m);
      assert zs == [zs[0]] + zs[1..];
    }
  }

  /** `ZRANGE name 0 stop`: the members of rank 0 through stop, lowest rank first. */
  function ZRange(zs: seq<Member>, stop: nat): (r: seq<Member>)
    ensures |r| == if |zs| <= stop then |zs| else stop + 1
    ensures r == zs[..|r|]
  {
    if |zs| <= stop then zs else zs[..stop + 1]
  }

  /** DynamoDB tables the handlers read and write. */
  class DynamoDb {
    var classes: map<ClassKey, ClassItem>
    var enrollments: seq<EnrollmentItem>
    var participation: map<ParticipationKey, nat>
    var dropped: seq<DroppedItem>
  }

  /** The Redis sorted sets, by name. */
  class RedisDb {
    var sets: map<string, seq<Member>>
  }
}
