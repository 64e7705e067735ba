/**
 * The footer's back button: `getBackUrl` maps the current route to the route one level
 * up, or to no button at all on the two top-level pages.
 */
module Footer {
  import opened Wrappers
  import opened JsString

  /** `parts[i]` inside a template literal: an index past the end reads `undefined`. */
  function Segment(parts: seq<string>, i: nat): string {
    if i < |parts| then parts[i] else "undefined"
  }

  /** `getBackUrl()`: the checks run in this order and the first that holds decides. */
  function GetBackUrl(path: string): (r: Option<string>)
    ensures r.None? <==> path == "/" || path == "/admin"
  {
    if path == "/" then None
    else if path == "/admin" then None
    else if Includes(path, "/admin/school/") then Some("/admin")
    else if Includes(path, "/create") then
      var parts := Split(path, '/');
      if "class" in parts then Some("/school/" + Segment(parts, 2) + "/class/" + Segment(parts, 4))
      else Some("/school/" + Segment(parts, 2))
    else if Includes(path, "/class/") then Some("/school/" + Segment(Split(path, '/'), 2))
    else if Includes(path, "/school/") then Some("/")
    else Some("/")
  }

  /** The path of a route built from separator-free segments. */
  function Route(segments: seq<string>): string {
    Join([""] + segments, '/')
  }

  lemma RouteSegments(segments: seq<string>)
    requires forall i :: 0 <= i < |segments| ==> '/' !in segments[i]
    ensures Split(Route(segments), '/') == [""] + segments
  {
    SplitJoin([""] + segments, '/');
  }

  /** The last `|t|` characters of `s` are `t`, so `s` includes `t`. */
  lemma IncludesSuffix(s: string, t: string)
    requires |t| <= |s| && s[|s| - |t|..] == t
    ensures Includes(s, t)
  {
    IncludesAt(s, t, |s| - |t|);
  }

  /** The thread-form route `/school/S/class/C/create`, cut into its segments. */
  lemma ClassCreateRoute(school: string, classNumber: string)
    requires '/' !in school && '/' !in classNumber
    ensures var path := "/school/" + school + "/class/" + classNumber + "/create";
      && Split(path, '/') == ["", "school", school, "class", classNumber, "create"]
      && Includes(path, "/create")
  {
    var path := "/school/" + school + "/class/" + classNumber + "/create";
    var segments := ["school", school, "class", classNumber, "create"];
    ClassCreatePath(school, classNumber);
    RouteSegments(segments);
    IncludesSuffix(path, "/create");
  }

  /** The thread-form route is the path `/school/S/class/C/create`. */
  lemma ClassCreatePath(school: string, classNumber: string)
    ensures Route(["school", school, "class", classNumber, "create"])
      == "/school/" + school + "/class/" + classNumber + "/create"
  {
    ClassPagePath(school, classNumber);
    RouteExtend(["school", school, "class", classNumber], "create");
    assert ["school", school, "class", classNumber] + ["create"] == ["school", school, "class", classNumber, "create"];
  }

  /** The class-page route is the path `/school/S/class/C`. */
  lemma ClassPagePath(school: string, classNumber: string)
    ensures Route(["school", school, "class", classNumber]) == "/school/" + school + "/class/" + classNumber
  {
    assert Route([]) == "";
    RouteExtend([], "school");
    assert [] + ["school"] == ["school"];
    assert Route(["school"]) == "/school";
    RouteExtend(["school"], school);
    assert ["school"] + [school] == ["school", school];
    assert Route(["school", school]) == "/school/" + school;
    RouteExtend(["school", school], "class");
    assert ["school", school] + ["class"] == ["school", school, "class"];
    assert Route(["school", school, "class"]) == "/school/" + school + "/class";
    RouteExtend(["school", school, "class"], classNumber);
    assert ["school", school, "class"] + [classNumber] == ["school", school, "class", classNumber];
  }

  /** Joining one more part appends the separator and the part. */
  lemma {:induction false} JoinSnoc(parts: seq<string>, x: string, sep: char)
    requires |parts| >= 1
    ensures Join(parts + [x], sep) == Join(parts, sep) + [sep] + x
  {
    if |parts| == 1 {
      assert parts + [x] == [parts[0], x];
    } else {
      assert (parts + [x])[1..] == parts[1..] + [x];
      JoinSnoc(parts[1..], x, sep);
    }
  }

  /** Adding a segment to a route appends `/` and the segment. */
  lemma RouteExtend(segments: seq<string>, x: string)
    ensures Route(segments + [x]) == Route(segments) + "/" + x
  {
    assert [""] + (segments + [x]) == ([""] + segments) + [x];
    JoinSnoc([""] + segments, x, '/');
  }

  /**
   * Outside the admin area, the thread-form route `/school/S/class/C/create` leads back
   * to the class page `/school/S/class/C`.
   */
  lemma BackFromClassCreate(school: string, classNumber: string)
    requires '/' !in school && '/' !in classNumber
    requires !Includes("/school/" + school + "/class/" + classNumber + "/create", "/admin/school/")
    ensures GetBackUrl("/school/" + school + "/class/" + classNumber + "/create")
      == Some("/school/" + school + "/class/" + classNumber)
  {
    ClassCreateRoute(school, classNumber);
    var parts := Split("/school/" + school + "/class/" + classNumber + "/create", '/');
    assert parts[3] == "class";
  }

  /** The college thread-form route `/college/S/create`, cut into its segments. */
  lemma CollegeCreateRoute(college: string)
    requires '/' !in college
    ensures var path := "/college/" + college + "/create";
      && Split(path, '/') == ["", "college", college, "create"]
      && Includes(path, "/create")
  {
    var path := "/college/" + college + "/create";
    var segments := ["college", college, "create"];
    assert Route(segments) == path by {
      assert Join(["create"], '/') == "create";
      assert Join([college, "create"], '/') == college + "/create";
      assert Join(segments, '/') == "college/" + college + "/create";
      assert ([""] + segments)[1..] == segments;
    }
    RouteSegments(segments);
    IncludesSuffix(path, "/create");
  }

  /**
   * Outside the admin area, a create route with no `class` segment, such as the college
   * form `/college/S/create`, leads to `/school/S`, even for a college.
   */
  lemma BackFromCollegeCreate(college: string)
    requires '/' !in college && college != "class"
    requires !Includes("/college/" + college + "/create", "/admin/school/")
    ensures GetBackUrl("/college/" + college + "/create") == Some("/school/" + college)
  {
    CollegeCreateRoute(college);
  }

  /** The class page route `/school/S/class/C`, cut into its segments. */
  lemma ClassPageRoute(school: string, classNumber: string)
    requires '/' !in school && '/' !in classNumber
    ensures var path := "/school/" + school + "/class/" + classNumber;
      && Split(path, '/') == ["", "school", school, "class", classNumber]
      && Includes(path, "/class/")
  {
    var path := "/school/" + school + "/class/" + classNumber;
    var segments := ["school", school, "class", classNumber];
    ClassPagePath(school, classNumber);
    RouteSegments(segments);
    var k := |"/school/" + school|;
    assert path[k..k + 7] == "/class/";
    IncludesAt(path, "/class/", k);
  }

  /**
   * A class page `/school/S/class/C`, outside the admin area and not a create route,
   * leads back to its school `/school/S`.
   */
  lemma BackFromClassPage(school: string, classNumber: string)
    requires '/' !in school && '/' !in classNumber
    requires !Includes("/school/" + school + "/class/" + classNumber, "/admin/school/")
    requires !Includes("/school/" + school + "/class/" + classNumber, "/create")
    ensures GetBackUrl("/school/" + school + "/class/" + classNumber) == Some("/school/" + school)
  {
    ClassPageRoute(school, classNumber);
  }

  /** The admin-school check runs before the create check: an admin create path still goes to `/admin`. */
  lemma AdminSchoolComesFirst(path: string)
    requires Includes(path, "/admin/school/") && Includes(path, "/create")
    ensures GetBackUrl(path) == Some("/admin")
  {
    IncludesShorter(path, "/admin/school/");
  }

  /** A school page, and any path that no earlier check claims, leads home. */
  lemma BackToHome(path: string)
    requires path != "/" && path != "/admin"
    requires !Includes(path, "/admin/school/") && !Includes(path, "/create") && !Includes(path, "/class/")
    ensures GetBackUrl(path) == Some("/")
  {
  }

  /** The admin school view `/admin/school/S` leads back to the admin panel. */
  lemma BackFromAdminSchool(school: string)
    ensures GetBackUrl("/admin/school/" + school) == Some("/admin")
  {
    var path := "/admin/school/" + school;
    assert path[..14] == "/admin/school/";
    IncludesAt(path, "/admin/school/", 0);
  }
}
