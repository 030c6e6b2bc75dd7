/**
 * The constant two-level schema of the transform step (dags/etl.py): six
 * categories, each mapping a key of the cleaned record (its left-hand,
 * source name) to the column the value is stored under (its right-hand name).
 * The order is the dictionary's insertion order, which is the order the
 * transform step iterates in.
 */
module Schema {

  datatype Attribute = Attribute(source: string, column: string)

  datatype Category = Category(name: string, attributes: seq<Attribute>)

  const Job: Category := Category("job", [
    Attribute("title", "job_title"),
    Attribute("industry", "job_industry"),
    Attribute("description", "job_description"),
    Attribute("employment_type", "job_employment_type"),
    Attribute("date_posted", "job_date_posted")
  ])

  const Company: Category := Category("company", [
    Attribute("name", "company_name"),
    Attribute("link", "company_linkedin_link")
  ])

  const Education: Category := Category("education", [
    Attribute("required_credential", "job_required_credential")
  ])

  const Experience: Category := Category("experience", [
    Attribute("months_of_experience", "job_months_of_experience"),
    Attribute("seniority_level", "seniority_level")
  ])

  const Salary: Category := Category("salary", [
    Attribute("currency", "salary_currency"),
    Attribute("min_value", "salary_min_value"),
    Attribute("max_value", "salary_max_value"),
    Attribute("unit", "salary_unit")
  ])

  const Location: Category := Category("location", [
    Attribute("country", "country"),
    Attribute("locality", "locality"),
    Attribute("region", "region"),
    Attribute("postal_code", "postal_code"),
    Attribute("street_address", "street_address"),
    Attribute("latitude", "latitude"),
    Attribute("longitude", "longitude")
  ])

  const Categories: seq<Category> := [Job, Company, Education, Experience, Salary, Location]

  function CategoryNames(cats: seq<Category>): set<string> {
    set c | c in cats :: c.name
  }

  function Columns(attrs: seq<Attribute>): set<string> {
    set a | a in attrs :: a.column
  }

  /** Every left-hand name the schema reads from a cleaned record. */
  function SourceKeys(): set<string> {
    set c, a | c in Categories && a in c.attributes :: a.source
  }

  /** The right-hand names of a category in iteration order. */
  function ColumnList(attrs: seq<Attribute>): (cols: seq<string>)
    ensures |cols| == |attrs|
    ensures forall j :: 0 <= j < |attrs| ==> cols[j] == attrs[j].column
  {
    if attrs == [] then [] else [attrs[0].column] + ColumnList(attrs[1..])
  }

  lemma ColumnsOfList(attrs: seq<Attribute>)
    ensures Columns(attrs) == set x | x in ColumnList(attrs)
  {
    var cols := ColumnList(attrs);
    forall x | x in Columns(attrs) ensures x in cols {
      var a :| a in attrs && a.column == x;
      var j :| 0 <= j < |attrs| && attrs[j] == a;
      assert cols[j] == x;
    }
    forall x | x in cols ensures x in Columns(attrs) {
      var j :| 0 <= j < |cols| && cols[j] == x;
      assert attrs[j] in attrs;
    }
  }

  // Within each category the left-hand names and the right-hand names are
  // distinct; the right-hand names as sets.

  lemma JobDistinct()
    ensures ColumnsDistinct(Job.attributes) && SourcesDistinct(Job.attributes)
  {
  }

  lemma JobColumns()
    ensures Columns(Job.attributes) == set x | x in ["job_title", "job_industry", "job_description", "job_employment_type", "job_date_posted"]
  {
    ColumnsOfList(Job.attributes);
    assert ColumnList(Job.attributes) == ["job_title", "job_industry", "job_description", "job_employment_type", "job_date_posted"];
  }

  lemma CompanyDistinct()
    ensures ColumnsDistinct(Company.attributes) && SourcesDistinct(Company.attributes)
  {
  }

  lemma CompanyColumns()
    ensures Columns(Company.attributes) == set x | x in ["company_name", "company_linkedin_link"]
  {
    ColumnsOfList(Company.attributes);
    assert ColumnList(Company.attributes) == ["company_name", "company_linkedin_link"];
  }

  lemma EducationDistinct()
    ensures ColumnsDistinct(Education.attributes) && SourcesDistinct(Education.attributes)
  {
  }

  lemma EducationColumns()
    ensures Columns(Education.attributes) == set x | x in ["job_required_credential"]
  {
    ColumnsOfList(Education.attributes);
    assert ColumnList(Education.attributes) == ["job_required_credential"];
  }

  lemma ExperienceDistinct()
    ensures ColumnsDistinct(Experience.attributes) && SourcesDistinct(Experience.attributes)
  {
  }

  lemma ExperienceColumns()
    ensures Columns(Experience.attributes) == set x | x in ["job_months_of_experience", "seniority_level"]
  {
    ColumnsOfList(Experience.attributes);
    assert ColumnList(Experience.attributes) == ["job_months_of_experience", "seniority_level"];
  }

  lemma SalaryDistinct()
    ensures ColumnsDistinct(Salary.attributes) && SourcesDistinct(Salary.attributes)
  {
  }

  lemma SalaryColumns()
    ensures Columns(Salary.attributes) == set x | x in ["salary_currency", "salary_min_value", "salary_max_value", "salary_unit"]
  {
    ColumnsOfList(Salary.attributes);
    assert ColumnList(Salary.attributes) == ["salary_currency", "salary_min_value", "salary_max_value", "salary_unit"];
  }

  lemma LocationDistinct()
    ensures ColumnsDistinct(Location.attributes) && SourcesDistinct(Location.attributes)
  {
    assert ColumnsDistinct(Location.attributes);
    assert forall j :: 0 <= j < |Location.attributes| ==>
      Location.attributes[j].source == Location.attributes[j].column;
  }

  lemma LocationColumns()
    ensures Columns(Location.attributes) == set x | x in ["country", "locality", "region", "postal_code", "street_address", "latitude", "longitude"]
  {
    ColumnsOfList(Location.attributes);
    assert ColumnList(Location.attributes) == ["country", "locality", "region", "postal_code", "street_address", "latitude", "longitude"];
  }

  lemma {:induction false} ColumnsSnoc(attrs: seq<Attribute>)
    requires attrs != []
    ensures Columns(attrs) == Columns(attrs[..|attrs| - 1]) + {attrs[|attrs| - 1].column}
  {
    var init, last := attrs[..|attrs| - 1], attrs[|attrs| - 1];
    assert attrs == init + [last];
    forall x | x in Columns(attrs) ensures x in Columns(init) + {last.column} {
      var a :| a in attrs && a.column == x;
    }
    forall x | x in Columns(init) ensures x in Columns(attrs) {
      var a :| a in init && a.column == x;
      assert a in attrs;
    }
    assert last in attrs;
  }

  /** Distinct right-hand names: a category has as many columns as attributes. */
  lemma {:induction false} DistinctColumnsCount(attrs: seq<Attribute>)
    requires ColumnsDistinct(attrs)
    ensures |Columns(attrs)| == |attrs|
    decreases |attrs|
  {
    if attrs != [] {
      var init := attrs[..|attrs| - 1];
      ColumnsSnoc(attrs);
      assert ColumnsDistinct(init);
      DistinctColumnsCount(init);
    }
  }

  /** Total number of attributes over all categories. */
  function AttributeCount(cats: seq<Category>): nat {
    if cats == [] then 0 else |cats[0].attributes| + AttributeCount(cats[1..])
  }

  ghost predicate NamesDistinct(cats: seq<Category>) {
    forall i, j :: 0 <= i < j < |cats| ==> cats[i].name != cats[j].name
  }

  ghost predicate ColumnsDistinct(attrs: seq<Attribute>) {
    forall i, j :: 0 <= i < j < |attrs| ==> attrs[i].column != attrs[j].column
  }

  ghost predicate SourcesDistinct(attrs: seq<Attribute>) {
    forall i, j :: 0 <= i < j < |attrs| ==> attrs[i].source != attrs[j].source
  }

  /**
   * The categories have distinct names and, within each category, both the
   * left-hand and the right-hand names are distinct, so no iteration of the
   * transform loops overwrites an entry an earlier one wrote.
   */
  lemma CategoriesWellFormed()
    ensures NamesDistinct(Categories)
    ensures forall i :: 0 <= i < |Categories| ==>
      ColumnsDistinct(Categories[i].attributes) && SourcesDistinct(Categories[i].attributes)
  {
    JobDistinct();
    CompanyDistinct();
    EducationDistinct();
    ExperienceDistinct();
    SalaryDistinct();
    LocationDistinct();
  }

  /** Six categories of 5, 2, 1, 2, 4 and 7 attributes: 21 columns in all. */
  lemma CategoriesShape()
    ensures |Categories| == 6
    ensures CategoryNames(Categories) == {"job", "company", "education", "experience", "salary", "location"}
    ensures |Categories[0].attributes| == 5 && |Categories[1].attributes| == 2
    ensures |Categories[2].attributes| == 1 && |Categories[3].attributes| == 2
    ensures |Categories[4].attributes| == 4 && |Categories[5].attributes| == 7
    ensures AttributeCount(Categories) == 21
  {
    var names := [Categories[0].name, Categories[1].name, Categories[2].name,
                  Categories[3].name, Categories[4].name, Categories[5].name];
    assert names == ["job", "company", "education", "experience", "salary", "location"];
    forall x | x in CategoryNames(Categories) ensures x in names {
      var c :| c in Categories && c.name == x;
      var i :| 0 <= i < 6 && Categories[i] == c;
    }
    assert CategoryNames(Categories) == set x | x in names;
    assert Categories[5..][1..] == [];
    assert Categories[4..][1..] == Categories[5..];
    assert Categories[3..][1..] == Categories[4..];
    assert Categories[2..][1..] == Categories[3..];
    assert Categories[1..][1..] == Categories[2..];
    assert AttributeCount(Categories[5..]) == 7;
    assert AttributeCount(Categories[4..]) == 11;
    assert AttributeCount(Categories[3..]) == 13;
    assert AttributeCount(Categories[2..]) == 14;
    assert AttributeCount(Categories[1..]) == 16;
  }
}
