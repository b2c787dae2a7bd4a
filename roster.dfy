/**
 The roster: students, the seed the application synchronises on startup,
 and the order in which `get_students` lists them (`ORDER BY nombre`).
 */
module Roster {

  type StudentId = string

  /** A row of the `estudiantes` table. */
  datatype Student = Student(id: StudentId, nombre: string)

  /** `STUDENTS_SETUP`, in its insertion order. */
  const StudentsSetup: seq<Student> := [
    Student("sofia_sarachaga", "Sofia Sarachaga"),
    Student("lailen_flores", "Lailen Flores"),
    Student("gabriel_rios", "Gabriel Rios"),
    Student("tahirah_husagh", "Tahirah Husagh"),
    Student("josue_soler", "Josue Soler"),
    Student("nehuen_cerdan", "Nehuen Cerdan")
  ]

  /** The ids that occur in a list of students. */
  function Ids(s: seq<Student>): set<StudentId>
  {
    set i | 0 <= i < |s| :: s[i].id
  }

  /** No id occurs twice (what a Python dict keyed by id guarantees). */
  predicate DistinctIds(s: seq<Student>)
  {
    forall i, j :: 0 <= i < j < |s| ==> s[i].id != s[j].id
  }

  /** The seed's keys are distinct, as the keys of a dict literal are. */
  lemma StudentsSetupDistinct()
    ensures DistinctIds(StudentsSetup)
  {
  }

  /** Dropping the last entry of a list drops at most its id. */
  lemma IdsOfPrefix(s: seq<Student>)
    requires s != []
    ensures Ids(s) == Ids(s[..|s| - 1]) + {s[|s| - 1].id}
  {
    var t := s[..|s| - 1];
    forall x | x in Ids(s) ensures x in Ids(t) + {s[|s| - 1].id} {
      var i :| 0 <= i < |s| && s[i].id == x;
      if i < |s| - 1 { assert t[i].id == x; }
    }
    forall x | x in Ids(t) ensures x in Ids(s) {
      var i :| 0 <= i < |t| && t[i].id == x;
      assert s[i].id == x;
    }
  }

  /**
   A list names at most as many ids as it has entries, and exactly as many
   precisely when no id occurs twice.
   */
  lemma {:induction false} IdsCount(s: seq<Student>)
    ensures |Ids(s)| <= |s|
    ensures |Ids(s)| == |s| <==> DistinctIds(s)
  {
    if s != [] {
      var t := s[..|s| - 1];
      var last := s[|s| - 1];
      IdsOfPrefix(s);
      IdsCount(t);
      if last.id in Ids(t) {
        assert Ids(s) == Ids(t);
        var k :| 0 <= k < |t| && t[k].id == last.id;
        assert s[k].id == s[|s| - 1].id;
      } else {
        assert |Ids(s)| == |Ids(t)| + 1;
        if DistinctIds(s) {
          assert DistinctIds(t);
        }
        if |Ids(s)| == |s| {
          forall i, j | 0 <= i < j < |s| ensures s[i].id != s[j].id {
            if j < |s| - 1 {
              assert t[i].id != t[j].id;
            } else {
              assert t[i].id in Ids(t);
            }
          }
        }
      }
    }
  }

  /**
   The names the seed assigns: for an id that occurs several times the
   last occurrence wins, as the upsert loop overwrites in seed order.
   */
  function SeedNames(seed: seq<Student>): (m: map<StudentId, string>)
    ensures m.Keys == Ids(seed)
    decreases |seed|
  {
    if seed == [] then map[]
    else
      var last := seed[|seed| - 1];
      IdsOfPrefix(seed);
      SeedNames(seed[..|seed| - 1])[last.id := last.nombre]
  }

  /** Each id gets the name of its last occurrence in the seed. */
  lemma {:induction false} SeedNamesLastWins(seed: seq<Student>, i: int)
    requires LastOccurrence(seed, i)
    ensures seed[i].id in SeedNames(seed)
    ensures SeedNames(seed)[seed[i].id] == seed[i].nombre
    decreases |seed|
  {
    var t := seed[..|seed| - 1];
    if i < |seed| - 1 {
      assert seed[|seed| - 1].id != seed[i].id;
      assert LastOccurrence(t, i) by {
        forall j | i < j < |t| ensures t[j].id != t[i].id {
          assert t[j] == seed[j];
        }
      }
      SeedNamesLastWins(t, i);
    }
  }

  /** Entry `i` is the last one of the seed with its id. */
  predicate LastOccurrence(seed: seq<Student>, i: int)
  {
    0 <= i < |seed| && forall j :: i < j < |seed| ==> seed[j].id != seed[i].id
  }

  /** With distinct ids, the seed assigns every entry its own name. */
  lemma SeedNamesOfDistinct(seed: seq<Student>, i: int)
    requires DistinctIds(seed)
    requires 0 <= i < |seed|
    ensures seed[i].id in SeedNames(seed)
    ensures SeedNames(seed)[seed[i].id] == seed[i].nombre
  {
    SeedNamesLastWins(seed, i);
  }

  /**
   The collation of `ORDER BY nombre`: SQLite's default BINARY collation
   compares the UTF-8 bytes, which orders strings as their code points do,
   a proper prefix first.
   */
  predicate NameLe(a: string, b: string)
    ensures a <= b ==> NameLe(a, b)
    decreases |a|
  {
    a == [] || (b != [] && (a[0] < b[0] || (a[0] == b[0] && NameLe(a[1..], b[1..]))))
  }

  /** The collation is total: of two names one comes first. */
  lemma {:induction false} NameLeTotal(a: string, b: string)
    ensures NameLe(a, b) || NameLe(b, a)
    decreases |a|
  {
    if a != [] && b != [] && a[0] == b[0] {
      NameLeTotal(a[1..], b[1..]);
    }
  }

  /** Two names ordered each before the other are equal. */
  lemma {:induction false} NameLeAntisymmetric(a: string, b: string)
    requires NameLe(a, b) && NameLe(b, a)
    ensures a == b
    decreases |a|
  {
    if a != [] {
      NameLeAntisymmetric(a[1..], b[1..]);
      assert a == [a[0]] + a[1..] && b == [b[0]] + b[1..];
    }
  }

  /** The collation is transitive. */
  lemma {:induction false} NameLeTransitive(a: string, b: string, c: string)
    requires NameLe(a, b) && NameLe(b, c)
    ensures NameLe(a, c)
    decreases |a|
  {
    if a != [] && a[0] == b[0] && b[0] == c[0] {
      NameLeTransitive(a[1..], b[1..], c[1..]);
    }
  }

  /** Each name is no later than the next one in collation order. */
  predicate SortedByName(s: seq<Student>)
  {
    forall i :: 0 < i < |s| ==> NameLe(s[i - 1].nombre, s[i].nombre)
  }

  /** A list sorted step by step is sorted between any two positions. */
  lemma {:induction false} SortedByNamePairwise(s: seq<Student>, i: int, j: int)
    requires SortedByName(s)
    requires 0 <= i <= j < |s|
    ensures NameLe(s[i].nombre, s[j].nombre)
    decreases j - i
  {
    if i == j {
      NameLeReflexive(s[i].nombre);
    } else {
      SortedByNamePairwise(s, i, j - 1);
      NameLeTransitive(s[i].nombre, s[j - 1].nombre, s[j].nombre);
    }
  }

  lemma {:induction false} NameLeReflexive(a: string)
    ensures NameLe(a, a)
    decreases |a|
  {
    if a != [] { NameLeReflexive(a[1..]); }
  }

  /** Places `x` before the first entry whose name does not precede it. */
  function InsertByName(s: seq<Student>, x: Student): (r: seq<Student>)
    requires SortedByName(s)
    ensures SortedByName(r)
    ensures multiset(r) == multiset(s) + multiset{x}
    ensures r != [] && (r[0] == x || (s != [] && r[0] == s[0]))
    decreases |s|
  {
    if s == [] || NameLe(x.nombre, s[0].nombre) then
      [x] + s
    else
      NameLeTotal(x.nombre, s[0].nombre);
      var rest := InsertByName(s[1..], x);
      assert s == [s[0]] + s[1..];
      [s[0]] + rest
  }

  /** One more seed entry overrides one more name. */
  lemma SeedNamesStep(before: map<StudentId, string>, seed: seq<Student>, i: int)
    requires 0 <= i < |seed|
    ensures before + SeedNames(seed[..i + 1]) == (before + SeedNames(seed[..i]))[seed[i].id := seed[i].nombre]
  {
    assert seed[..i + 1][..i] == seed[..i];
    var m := SeedNames(seed[..i]);
    assert SeedNames(seed[..i + 1]) == m[seed[i].id := seed[i].nombre];
  }

  /** Inserting a student adds exactly its id to the ids of a list. */
  lemma IdsOfInsert(s: seq<Student>, x: Student, r: seq<Student>)
    requires multiset(r) == multiset(s) + multiset{x}
    ensures Ids(r) == Ids(s) + {x.id}
    ensures |r| == |s| + 1
  {
    assert |multiset(r)| == |multiset(s)| + 1;
    forall y | y in Ids(r) ensures y in Ids(s) + {x.id} {
      var i :| 0 <= i < |r| && r[i].id == y;
      assert r[i] in multiset(r);
      if r[i] != x {
        assert r[i] in multiset(s);
        var j :| 0 <= j < |s| && s[j] == r[i];
      }
    }
    forall y | y in Ids(s) + {x.id} ensures y in Ids(r) {
      if y == x.id {
        assert x in multiset(r);
        var i :| 0 <= i < |r| && r[i] == x;
      } else {
        var j :| 0 <= j < |s| && s[j].id == y;
        assert s[j] in multiset(r);
        var i :| 0 <= i < |r| && r[i] == s[j];
      }
    }
  }
}
