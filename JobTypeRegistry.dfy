/**
  The job registry: one descriptor per concrete job type found in the
  loaded assemblies, ordered by category then name, cached on first use,
  and the search and category queries the job picker runs on it.
*/
module JobTypeRegistry {
  import opened Common
  import opened Text
  import opened Queries

  /** [JobDescription(description, category = "General")]; either argument may be null. */
  datatype JobDescriptionAttribute =
    JobDescriptionAttribute(description: Option<string>, category: Option<string> := Some(DefaultCategory))

  /** What reflection reports about one loaded type. */
  datatype ReflectedType = ReflectedType(
    name: string,
    assignableToIJob: bool,
    isInterface: bool,
    isAbstract: bool,
    attribute: Option<JobDescriptionAttribute>)

  /** JobTypeRegistry.JobTypeInfo. */
  datatype JobTypeInfo = JobTypeInfo(jobType: ReflectedType, name: string, description: string, category: string)

  const DefaultDescription: string := "No description available."
  const DefaultCategory: string := "General"

  /** `attribute?.Description ?? "No description available."` */
  function GetJobDescription(t: ReflectedType): string
  {
    if t.attribute.Some? && t.attribute.value.description.Some?
    then t.attribute.value.description.value
    else DefaultDescription
  }

  /** `attribute?.Category ?? "General"` */
  function GetJobCategory(t: ReflectedType): string
  {
    if t.attribute.Some? && t.attribute.value.category.Some?
    then t.attribute.value.category.value
    else DefaultCategory
  }

  /** The discovery filter: assignable to IJob, not an interface, not abstract. */
  predicate IsConcreteJob(t: ReflectedType)
  {
    t.assignableToIJob && !t.isInterface && !t.isAbstract
  }

  function Describe(t: ReflectedType): JobTypeInfo
  {
    JobTypeInfo(t, t.name, GetJobDescription(t), GetJobCategory(t))
  }

  /** OrderBy(Category).ThenBy(Name). */
  function CategoryThenName(info: JobTypeInfo): seq<string>
  {
    [info.category, info.name]
  }

  /** The InitializeJobTypes pipeline over the given loaded types. */
  function InitializeJobTypes(types: seq<ReflectedType>): seq<JobTypeInfo>
  {
    OrderByKey(Select(Where(types, IsConcreteJob), Describe), CategoryThenName)
  }

  /** The SearchJobs predicate; an empty string stands for null or "" alike. */
  predicate Matches(job: JobTypeInfo, searchTerm: string, category: string)
  {
    && (category == "" || EqualsIgnoreCase(job.category, category))
    && (searchTerm == "" || ContainsIgnoreCase(job.name, searchTerm) || ContainsIgnoreCase(job.description, searchTerm))
  }

  /** The Where clause of SearchJobs applied to the registry's list. */
  function MatchingJobs(all: seq<JobTypeInfo>, searchTerm: string, category: string): seq<JobTypeInfo>
  {
    Where(all, job => Matches(job, searchTerm, category))
  }

  function Single(c: string): seq<string>
  {
    [c]
  }

  /** Select(Category).Distinct().OrderBy(c => c). */
  function DistinctCategories(all: seq<JobTypeInfo>): seq<string>
  {
    OrderByKey(Distinct(Select(all, (job: JobTypeInfo) => job.category)), Single)
  }

  // ----- properties of the queries -----

  /** A type without the attribute gets the default description and category;
      an attribute written without a category argument yields "General". */
  lemma DefaultMetadata(t: ReflectedType, description: string)
    ensures t.attribute.None? ==>
              Describe(t).description == "No description available." && Describe(t).category == "General"
    ensures t.attribute == Some(JobDescriptionAttribute(Some(description))) ==>
              Describe(t).description == description && Describe(t).category == "General"
    ensures t.attribute.Some? && t.attribute.value.category.None? ==> Describe(t).category == "General"
  {
  }

  /** The registry holds exactly one descriptor per concrete job type (with
      multiplicity) and nothing else. */
  lemma {:induction false} InitializeJobTypesContents(types: seq<ReflectedType>)
    ensures multiset(InitializeJobTypes(types)) == multiset(Select(Where(types, IsConcreteJob), Describe))
    ensures forall t :: multiset(Where(types, IsConcreteJob))[t] == if IsConcreteJob(t) then multiset(types)[t] else 0
    ensures forall t :: t in types && IsConcreteJob(t) ==> Describe(t) in InitializeJobTypes(types)
    ensures forall info :: info in InitializeJobTypes(types) ==>
              info.jobType in types && IsConcreteJob(info.jobType) && info == Describe(info.jobType)
  {
    WhereMultiset(types, IsConcreteJob);
    var found := Where(types, IsConcreteJob);
    var described := Select(found, Describe);
    var r := InitializeJobTypes(types);
    forall t | t in types && IsConcreteJob(t) ensures Describe(t) in r {
      var i :| 0 <= i < |found| && found[i] == t;
      assert described[i] in multiset(r);
    }
    forall info | info in r ensures info.jobType in types && IsConcreteJob(info.jobType) && info == Describe(info.jobType) {
      assert info in multiset(described);
      var i :| 0 <= i < |described| && described[i] == info;
      assert found[i] in found;
    }
  }

  /** The registry list is sorted by category, then by name (ordinal order). */
  lemma InitializeJobTypesSorted(types: seq<ReflectedType>)
    ensures forall i, j :: 0 <= i < j < |InitializeJobTypes(types)| ==>
              var a, b := InitializeJobTypes(types)[i], InitializeJobTypes(types)[j];
              StrLt(a.category, b.category) || (a.category == b.category && StrLeq(a.name, b.name))
  {
    var r := InitializeJobTypes(types);
    forall i, j | 0 <= i < j < |r|
      ensures StrLt(r[i].category, r[j].category) || (r[i].category == r[j].category && StrLeq(r[i].name, r[j].name))
    {
      KeyLeqPair(r[i].category, r[i].name, r[j].category, r[j].name);
    }
  }

  /** With neither a term nor a category, SearchJobs returns the whole list. */
  lemma SearchWithoutFilters(all: seq<JobTypeInfo>)
    ensures MatchingJobs(all, "", "") == all
  {
    WhereAll(all, job => Matches(job, "", ""));
  }

  /** The results are the jobs that pass both filters, in registry order,
      each as many times as the registry holds it. */
  lemma SearchResults(all: seq<JobTypeInfo>, searchTerm: string, category: string)
    ensures IsSubsequence(MatchingJobs(all, searchTerm, category), all)
    ensures forall job :: multiset(MatchingJobs(all, searchTerm, category))[job] ==
              if Matches(job, searchTerm, category) then multiset(all)[job] else 0
    ensures forall job :: job in MatchingJobs(all, searchTerm, category) <==> job in all && Matches(job, searchTerm, category)
    ensures category != "" ==>
              forall job :: job in MatchingJobs(all, searchTerm, category) ==> EqualsIgnoreCase(job.category, category)
    ensures searchTerm != "" ==>
              forall job :: job in MatchingJobs(all, searchTerm, category) ==>
                ContainsIgnoreCase(job.name, searchTerm) || ContainsIgnoreCase(job.description, searchTerm)
  {
    WhereMultiset(all, job => Matches(job, searchTerm, category));
  }

  /** Search results keep the registry's category-then-name order. */
  lemma SearchResultsSorted(types: seq<ReflectedType>, searchTerm: string, category: string)
    ensures SortedByKey(MatchingJobs(InitializeJobTypes(types), searchTerm, category), CategoryThenName)
  {
    var all := InitializeJobTypes(types);
    SubsequenceSorted(MatchingJobs(all, searchTerm, category), all, CategoryThenName);
  }

  /** GetCategories lists each category once, strictly ascending, and nothing else. */
  lemma {:induction false} CategoriesExact(all: seq<JobTypeInfo>)
    ensures forall c :: c in DistinctCategories(all) <==> exists job :: job in all && job.category == c
    ensures forall i, j :: 0 <= i < j < |DistinctCategories(all)| ==>
              StrLt(DistinctCategories(all)[i], DistinctCategories(all)[j])
  {
    var cats := Select(all, (job: JobTypeInfo) => job.category);
    var d := Distinct(cats);
    var r := DistinctCategories(all);
    assert multiset(r) == multiset(d);
    forall c ensures c in r <==> exists job :: job in all && job.category == c {
      assert c in r <==> c in multiset(d);
      if c in d {
        var i :| 0 <= i < |cats| && cats[i] == c;
        assert all[i] in all;
      }
      if job :| job in all && job.category == c {
        var i :| 0 <= i < |all| && all[i] == job;
        assert cats[i] == c;
      }
    }
    DistinctPermutation(d, r);
    forall i, j | 0 <= i < j < |r| ensures StrLt(r[i], r[j]) {
      KeyLeqSingle(r[i], r[j]);
    }
  }

  /** A permutation of a duplicate-free sequence is duplicate-free. */
  lemma DistinctPermutation(d: seq<string>, r: seq<string>)
    requires forall i, j :: 0 <= i < j < |d| ==> d[i] != d[j]
    requires multiset(r) == multiset(d)
    ensures forall i, j :: 0 <= i < j < |r| ==> r[i] != r[j]
  {
    forall i, j | 0 <= i < j < |r| ensures r[i] != r[j] {
      if r[i] == r[j] {
        assert multiset(r)[r[i]] >= 2 by {
          var rest := r[..i] + r[i + 1..];
          assert r == r[..i] + [r[i]] + r[i + 1..];
          assert r[j] in rest by { assert rest[j - 1] == r[j]; }
          assert multiset(r) == multiset(rest) + multiset{r[i]};
        }
        DuplicateFreeCount(d, r[i]);
        assert false;
      }
    }
  }

  /** In a duplicate-free sequence every element occurs at most once. */
  lemma {:induction false} DuplicateFreeCount(d: seq<string>, x: string)
    requires forall i, j :: 0 <= i < j < |d| ==> d[i] != d[j]
    ensures multiset(d)[x] <= 1
  {
    if |d| > 0 {
      var last := d[|d| - 1];
      var front := d[..|d| - 1];
      assert d == front + [last];
      DuplicateFreeCount(front, x);
      if x == last {
        assert x !in front by {
          forall k | 0 <= k < |front| ensures front[k] != x {
            assert front[k] == d[k];
          }
        }
      }
    }
  }

  /**
    The process-wide registry state. `assemblyTypes` stands for the types
    AppDomain scanning would find; `jobTypes` is the lazily filled static
    `_jobTypes` list (None while it is still null).
  */
  class Registry {
    const assemblyTypes: seq<ReflectedType>
    var jobTypes: Option<seq<JobTypeInfo>>

    ghost predicate Valid()
      reads this
    {
      jobTypes.Some? ==> jobTypes.value == InitializeJobTypes(assemblyTypes)
    }

    constructor (loaded: seq<ReflectedType>)
      ensures Valid() && assemblyTypes == loaded && jobTypes.None?
    {
      assemblyTypes := loaded;
      jobTypes := None;
    }

    /** Fill the cache on first use, then always return the cached list. */
    method GetAllJobTypes() returns (all: seq<JobTypeInfo>)
      requires Valid()
      modifies this
      ensures Valid() && jobTypes == Some(all)
      ensures all == InitializeJobTypes(assemblyTypes)
      ensures old(jobTypes).Some? ==> jobTypes == old(jobTypes)
    {
      if jobTypes.None? {
        jobTypes := Some(InitializeJobTypes(assemblyTypes));
      }
      all := jobTypes.value;
    }

    method SearchJobs(searchTerm: string, category: string) returns (found: seq<JobTypeInfo>)
      requires Valid()
      modifies this
      ensures Valid() && jobTypes == Some(InitializeJobTypes(assemblyTypes))
      ensures found == MatchingJobs(InitializeJobTypes(assemblyTypes), searchTerm, category)
    {
      var all := GetAllJobTypes();
      found := MatchingJobs(all, searchTerm, category);
    }

    method GetCategories() returns (categories: seq<string>)
      requires Valid()
      modifies this
      ensures Valid() && jobTypes == Some(InitializeJobTypes(assemblyTypes))
      ensures categories == DistinctCategories(InitializeJobTypes(assemblyTypes))
    {
      var all := GetAllJobTypes();
      categories := DistinctCategories(all);
    }
  }
}
