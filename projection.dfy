/**
 * The transform step's projection (dags/etl.py): the flat record produced by
 * the cleaner is reorganised into one sub-dictionary per schema category,
 * keyed by the schema's right-hand names, each value looked up in the flat
 * record by the left-hand name with `dict.get` (None when the key is absent).
 */
module Projection {
  import opened Wrappers
  import opened Schema

  /** The flat record: a key may be absent, or present and bound to None. */
  type Cleaned<V> = map<string, Option<V>>

  /** One category's sub-dictionary, keyed by column. */
  type Row<V> = map<string, Option<V>>

  /** The nested record, keyed by category name. */
  type Record<V> = map<string, Row<V>>

  /** Python's `cleaned.get(key)`: the bound value, or None for a missing key. */
  function Get<V>(cleaned: Cleaned<V>, key: string): Option<V> {
    if key in cleaned then cleaned[key] else None
  }

  /** No attribute after position `j` is stored under the same column as `attrs[j]`. */
  ghost predicate LastForColumn(attrs: seq<Attribute>, j: int)
    requires 0 <= j < |attrs|
  {
    forall k :: j < k < |attrs| ==> attrs[k].column != attrs[j].column
  }

  /** No category after position `i` has the same name as `cats[i]`. */
  ghost predicate LastForName(cats: seq<Category>, i: int)
    requires 0 <= i < |cats|
  {
    forall k :: i < k < |cats| ==> cats[k].name != cats[i].name
  }

  /**
   * The sub-dictionary the inner loop builds: the attributes are assigned in
   * order, so a column holds the value of the LAST attribute stored under it
   * (FillRowKeys, FillRowValue).
   */
  function FillRow<V>(attrs: seq<Attribute>, cleaned: Cleaned<V>): Row<V>
    decreases |attrs|
  {
    if attrs == [] then map[]
    else
      var last := attrs[|attrs| - 1];
      FillRow(attrs[..|attrs| - 1], cleaned)[last.column := Get(cleaned, last.source)]
  }

  /** The inner loop writes exactly the category's right-hand names. */
  lemma {:induction false} FillRowKeys<V>(attrs: seq<Attribute>, cleaned: Cleaned<V>)
    ensures FillRow(attrs, cleaned).Keys == Columns(attrs)
    decreases |attrs|
  {
    if attrs != [] {
      FillRowKeys(attrs[..|attrs| - 1], cleaned);
      ColumnsSnoc(attrs);
    }
  }

  /** A column holds the looked-up value of the last attribute written to it. */
  lemma {:induction false} FillRowValue<V>(attrs: seq<Attribute>, cleaned: Cleaned<V>, j: nat)
    requires j < |attrs| && LastForColumn(attrs, j)
    ensures attrs[j].column in FillRow(attrs, cleaned)
    ensures FillRow(attrs, cleaned)[attrs[j].column] == Get(cleaned, attrs[j].source)
    decreases |attrs|
  {
    var init := attrs[..|attrs| - 1];
    if j < |attrs| - 1 {
      assert attrs[|attrs| - 1].column != attrs[j].column;
      assert LastForColumn(init, j) by {
        forall k | j < k < |init| ensures init[k].column != init[j].column {
          assert init[k] == attrs[k];
        }
      }
      FillRowValue(init, cleaned, j);
    }
  }

  /**
   * The dictionary the outer loop builds: each category's name is bound to its
   * filled sub-dictionary, a later category replacing an earlier one of the
   * same name (BuildRecordKeys, BuildRecordValue).
   */
  function BuildRecord<V>(cats: seq<Category>, cleaned: Cleaned<V>): Record<V>
    decreases |cats|
  {
    if cats == [] then map[]
    else
      var last := cats[|cats| - 1];
      BuildRecord(cats[..|cats| - 1], cleaned)[last.name := FillRow(last.attributes, cleaned)]
  }

  lemma {:induction false} BuildRecordKeys<V>(cats: seq<Category>, cleaned: Cleaned<V>)
    ensures BuildRecord(cats, cleaned).Keys == CategoryNames(cats)
    decreases |cats|
  {
    if cats != [] {
      var init, last := cats[..|cats| - 1], cats[|cats| - 1];
      BuildRecordKeys(init, cleaned);
      assert cats == init + [last];
      forall x | x in CategoryNames(cats) ensures x in CategoryNames(init) + {last.name} {
        var c :| c in cats && c.name == x;
      }
      forall x | x in CategoryNames(init) ensures x in CategoryNames(cats) {
        var c :| c in init && c.name == x;
        assert c in cats;
      }
      assert last in cats;
    }
  }

  lemma {:induction false} BuildRecordValue<V>(cats: seq<Category>, cleaned: Cleaned<V>, i: nat)
    requires i < |cats| && LastForName(cats, i)
    ensures cats[i].name in BuildRecord(cats, cleaned)
    ensures BuildRecord(cats, cleaned)[cats[i].name] == FillRow(cats[i].attributes, cleaned)
    decreases |cats|
  {
    var init := cats[..|cats| - 1];
    if i < |cats| - 1 {
      assert cats[|cats| - 1].name != cats[i].name;
      assert LastForName(init, i) by {
        forall k | i < k < |init| ensures init[k].name != init[i].name {
          assert init[k] == cats[k];
        }
      }
      BuildRecordValue(init, cleaned, i);
    }
  }

  lemma FillRowStep<V>(attrs: seq<Attribute>, cleaned: Cleaned<V>, j: nat)
    requires j < |attrs|
    ensures FillRow(attrs[..j + 1], cleaned)
      == FillRow(attrs[..j], cleaned)[attrs[j].column := Get(cleaned, attrs[j].source)]
  {
    assert attrs[..j + 1][..j] == attrs[..j];
  }

  lemma BuildRecordStep<V>(cats: seq<Category>, cleaned: Cleaned<V>, i: nat)
    requires i < |cats|
    ensures BuildRecord(cats[..i + 1], cleaned)
      == BuildRecord(cats[..i], cleaned)[cats[i].name := FillRow(cats[i].attributes, cleaned)]
  {
    assert cats[..i + 1][..i] == cats[..i];
  }

  /** What the transform step computes from one cleaned record. */
  function Projected<V>(cleaned: Cleaned<V>): Record<V> {
    BuildRecord(Categories, cleaned)
  }

  /**
   * The nested loops of the transform step, over the items of a schema:
   * `transformed[category]` starts empty and is filled in place, one
   * attribute at a time.
   */
  method Project<V>(schema: seq<Category>, cleaned: Cleaned<V>) returns (transformed: Record<V>)
    ensures transformed == BuildRecord(schema, cleaned)
  {
    transformed := map[];
    for i := 0 to |schema|
      invariant transformed == BuildRecord(schema[..i], cleaned)
    {
      var category := schema[i];
      transformed := transformed[category.name := map[]];
      for j := 0 to |category.attributes|
        invariant transformed
          == BuildRecord(schema[..i], cleaned)[category.name := FillRow(category.attributes[..j], cleaned)]
      {
        var attribute := category.attributes[j];
        FillRowStep(category.attributes, cleaned, j);
        transformed := transformed[category.name :=
          transformed[category.name][attribute.column := Get(cleaned, attribute.source)]];
      }
      assert category.attributes[..|category.attributes|] == category.attributes;
      BuildRecordStep(schema, cleaned, i);
    }
    assert schema[..|schema|] == schema;
  }

  /** The projection of one cleaned record through the transform step's constant schema. */
  method Transform<V>(cleaned: Cleaned<V>) returns (transformed: Record<V>)
    ensures transformed == Projected(cleaned)
  {
    transformed := Project(Categories, cleaned);
  }

  // -----------------------------------------------------------------------
  // Properties of the projection
  // -----------------------------------------------------------------------

  /** The result has exactly the six category keys. */
  lemma ProjectedCategories<V>(cleaned: Cleaned<V>)
    ensures Projected(cleaned).Keys == {"job", "company", "education", "experience", "salary", "location"}
  {
    BuildRecordKeys(Categories, cleaned);
    CategoriesShape();
  }

  /**
   * Every schema entry is present, under the category's name and the
   * attribute's right-hand name, and holds the cleaned value of the left-hand
   * name when that key is present, None when it is not.
   */
  lemma ProjectedEntry<V>(cleaned: Cleaned<V>, i: nat, j: nat)
    requires i < |Categories| && j < |Categories[i].attributes|
    ensures Categories[i].name in Projected(cleaned)
    ensures Categories[i].attributes[j].column in Projected(cleaned)[Categories[i].name]
    ensures Projected(cleaned)[Categories[i].name][Categories[i].attributes[j].column]
      == Get(cleaned, Categories[i].attributes[j].source)
    ensures Categories[i].attributes[j].source in cleaned ==>
      Projected(cleaned)[Categories[i].name][Categories[i].attributes[j].column]
        == cleaned[Categories[i].attributes[j].source]
    ensures Categories[i].attributes[j].source !in cleaned ==>
      Projected(cleaned)[Categories[i].name][Categories[i].attributes[j].column] == None
  {
    CategoriesWellFormed();
    BuildRecordValue(Categories, cleaned, i);
    FillRowValue(Categories[i].attributes, cleaned, j);
  }

  lemma ProjectedRowKeys<V>(cleaned: Cleaned<V>, i: nat)
    requires i < |Categories|
    ensures Categories[i].name in Projected(cleaned)
    ensures Projected(cleaned)[Categories[i].name].Keys == Columns(Categories[i].attributes)
  {
    CategoriesWellFormed();
    BuildRecordValue(Categories, cleaned, i);
    FillRowKeys(Categories[i].attributes, cleaned);
  }

  /**
   * Each sub-dictionary holds one entry per attribute of its category, so
   * 5, 2, 1, 2, 4 and 7 entries (CategoriesShape): 21 in all.
   */
  lemma ProjectedSizes<V>(cleaned: Cleaned<V>)
    ensures forall i :: 0 <= i < |Categories| ==>
      Categories[i].name in Projected(cleaned) && |Projected(cleaned)[Categories[i].name]| == |Categories[i].attributes|
  {
    CategoriesWellFormed();
    forall i | 0 <= i < |Categories|
      ensures Categories[i].name in Projected(cleaned)
      ensures |Projected(cleaned)[Categories[i].name]| == |Categories[i].attributes|
    {
      ProjectedRowKeys(cleaned, i);
      DistinctColumnsCount(Categories[i].attributes);
      assert |Projected(cleaned)[Categories[i].name]| == |Projected(cleaned)[Categories[i].name].Keys|;
    }
  }

  /** Each category's sub-dictionary has exactly that category's right-hand names as keys. */
  lemma ProjectedColumns<V>(cleaned: Cleaned<V>)
    ensures Projected(cleaned).Keys == {"job", "company", "education", "experience", "salary", "location"}
    ensures Projected(cleaned)["job"].Keys
      == set x | x in ["job_title", "job_industry", "job_description", "job_employment_type", "job_date_posted"]
    ensures Projected(cleaned)["company"].Keys == set x | x in ["company_name", "company_linkedin_link"]
    ensures Projected(cleaned)["education"].Keys == set x | x in ["job_required_credential"]
    ensures Projected(cleaned)["experience"].Keys == set x | x in ["job_months_of_experience", "seniority_level"]
    ensures Projected(cleaned)["salary"].Keys
      == set x | x in ["salary_currency", "salary_min_value", "salary_max_value", "salary_unit"]
    ensures Projected(cleaned)["location"].Keys
      == set x | x in ["country", "locality", "region", "postal_code", "street_address", "latitude", "longitude"]
  {
    ProjectedCategories(cleaned);
    ProjectedRowKeys(cleaned, 0);
    ProjectedRowKeys(cleaned, 1);
    ProjectedRowKeys(cleaned, 2);
    ProjectedRowKeys(cleaned, 3);
    ProjectedRowKeys(cleaned, 4);
    ProjectedRowKeys(cleaned, 5);
    JobColumns();
    CompanyColumns();
    EducationColumns();
    ExperienceColumns();
    SalaryColumns();
    LocationColumns();
    assert Categories[0].name == "job";
    assert Categories[1].name == "company";
    assert Categories[2].name == "education";
    assert Categories[3].name == "experience";
    assert Categories[4].name == "salary";
    assert Categories[5].name == "location";
  }

  // -----------------------------------------------------------------------
  // Only the schema's left-hand names flow through
  // -----------------------------------------------------------------------

  lemma {:induction false} FillRowAgree<V>(attrs: seq<Attribute>, c1: Cleaned<V>, c2: Cleaned<V>)
    requires forall a :: a in attrs ==> Get(c1, a.source) == Get(c2, a.source)
    ensures FillRow(attrs, c1) == FillRow(attrs, c2)
    decreases |attrs|
  {
    if attrs != [] {
      var init := attrs[..|attrs| - 1];
      assert forall a :: a in init ==> a in attrs;
      assert attrs[|attrs| - 1] in attrs;
      FillRowAgree(init, c1, c2);
    }
  }

  lemma {:induction false} BuildRecordAgree<V>(cats: seq<Category>, c1: Cleaned<V>, c2: Cleaned<V>)
    requires forall c, a :: c in cats && a in c.attributes ==> Get(c1, a.source) == Get(c2, a.source)
    ensures BuildRecord(cats, c1) == BuildRecord(cats, c2)
    decreases |cats|
  {
    if cats != [] {
      var init, last := cats[..|cats| - 1], cats[|cats| - 1];
      assert forall c :: c in init ==> c in cats;
      assert last in cats;
      BuildRecordAgree(init, c1, c2);
      FillRowAgree(last.attributes, c1, c2);
    }
  }

  /** Records that agree on every left-hand name of the schema project alike. */
  lemma ProjectedAgree<V>(c1: Cleaned<V>, c2: Cleaned<V>)
    requires forall k :: k in SourceKeys() ==> Get(c1, k) == Get(c2, k)
    ensures Projected(c1) == Projected(c2)
  {
    forall c, a | c in Categories && a in c.attributes
      ensures Get(c1, a.source) == Get(c2, a.source)
    {
      assert a.source in SourceKeys();
    }
    BuildRecordAgree(Categories, c1, c2);
  }

  /**
   * Two cleaned records project to the same nested record exactly when
   * `get` returns the same for every left-hand name of the schema: keys that
   * the schema does not read have no effect.
   */
  lemma ProjectedDependsOnlyOnSourceKeys<V>(c1: Cleaned<V>, c2: Cleaned<V>)
    ensures Projected(c1) == Projected(c2)
      <==> forall k :: k in SourceKeys() ==> Get(c1, k) == Get(c2, k)
  {
    if forall k :: k in SourceKeys() ==> Get(c1, k) == Get(c2, k) {
      ProjectedAgree(c1, c2);
    }
    if Projected(c1) == Projected(c2) {
      forall k | k in SourceKeys() ensures Get(c1, k) == Get(c2, k) {
        var c, a :| c in Categories && a in c.attributes && a.source == k;
        var i :| 0 <= i < |Categories| && Categories[i] == c;
        var j :| 0 <= j < |c.attributes| && c.attributes[j] == a;
        ProjectedEntry(c1, i, j);
        ProjectedEntry(c2, i, j);
      }
    }
  }

  /** Adding or removing a key the schema does not read leaves the projection unchanged. */
  lemma ProjectedIgnoresOtherKeys<V>(cleaned: Cleaned<V>, k: string, v: Option<V>)
    requires k !in SourceKeys()
    ensures Projected(cleaned[k := v]) == Projected(cleaned)
    ensures Projected(cleaned - {k}) == Projected(cleaned)
  {
    ProjectedDependsOnlyOnSourceKeys(cleaned[k := v], cleaned);
    ProjectedDependsOnlyOnSourceKeys(cleaned - {k}, cleaned);
  }

  // -----------------------------------------------------------------------
  // Iteration order does not matter
  // -----------------------------------------------------------------------

  /**
   * With distinct right-hand names no assignment of the inner loop overwrites
   * another, so any order of the same attributes fills the same row.
   */
  lemma FillRowOrderIndependent<V>(a1: seq<Attribute>, a2: seq<Attribute>, cleaned: Cleaned<V>)
    requires ColumnsDistinct(a1) && ColumnsDistinct(a2)
    requires forall a :: a in a1 <==> a in a2
    ensures FillRow(a1, cleaned) == FillRow(a2, cleaned)
  {
    var r1, r2 := FillRow(a1, cleaned), FillRow(a2, cleaned);
    FillRowKeys(a1, cleaned);
    FillRowKeys(a2, cleaned);
    assert Columns(a1) == Columns(a2);
    forall col | col in r1 ensures r1[col] == r2[col] {
      var a :| a in a1 && a.column == col;
      var j :| 0 <= j < |a1| && a1[j] == a;
      var k :| 0 <= k < |a2| && a2[k] == a;
      FillRowValue(a1, cleaned, j);
      FillRowValue(a2, cleaned, k);
    }
  }

  /**
   * `s2` lists the same categories as `s1`, possibly in another order and each
   * with its attributes in another order; names and columns are distinct.
   */
  ghost predicate Reordering(s1: seq<Category>, s2: seq<Category>) {
    && NamesDistinct(s1) && NamesDistinct(s2)
    && CategoryNames(s1) == CategoryNames(s2)
    && forall i, k :: 0 <= i < |s1| && 0 <= k < |s2| && s1[i].name == s2[k].name ==>
         && ColumnsDistinct(s1[i].attributes) && ColumnsDistinct(s2[k].attributes)
         && forall a :: a in s1[i].attributes <==> a in s2[k].attributes
  }

  /** The nested record does not depend on the order the loops visit the schema in. */
  lemma RecordOrderIndependent<V>(s1: seq<Category>, s2: seq<Category>, cleaned: Cleaned<V>)
    requires Reordering(s1, s2)
    ensures BuildRecord(s1, cleaned) == BuildRecord(s2, cleaned)
  {
    var r1, r2 := BuildRecord(s1, cleaned), BuildRecord(s2, cleaned);
    BuildRecordKeys(s1, cleaned);
    BuildRecordKeys(s2, cleaned);
    forall name | name in r1 ensures r1[name] == r2[name] {
      var c :| c in s1 && c.name == name;
      var i :| 0 <= i < |s1| && s1[i] == c;
      var d :| d in s2 && d.name == name;
      var k :| 0 <= k < |s2| && s2[k] == d;
      BuildRecordValue(s1, cleaned, i);
      BuildRecordValue(s2, cleaned, k);
      FillRowOrderIndependent(s1[i].attributes, s2[k].attributes, cleaned);
    }
  }

  /** Visiting the constant schema in any other order gives the same projection. */
  lemma ProjectedOrderIndependent<V>(schema: seq<Category>, cleaned: Cleaned<V>)
    requires Reordering(Categories, schema)
    ensures BuildRecord(schema, cleaned) == Projected(cleaned)
  {
    RecordOrderIndependent(Categories, schema, cleaned);
  }
}
