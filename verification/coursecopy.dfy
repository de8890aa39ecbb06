/**
 * The course-copy page (`course/copy.php`) and its form
 * (`course/copy_form.php`).
 *
 * The page works out where to send the user back to, shows the form, and on
 * submission asks the host to duplicate the course without its users,
 * overwrites the dates and idnumber the user submitted, re-creates the
 * manual enrolments of the chosen roles and redirects.  Database access,
 * capability checks, the duplication itself and the redirect are host
 * services: their answers are parameters here, and what the page asks of
 * them is returned as a list of actions.
 *
 * URLs of the site are written as a path relative to the site root with
 * their query parameters; `$CFG->wwwroot . '/course/view.php'` and
 * `'/course/view.php'` name the same page.
 */
module CourseCopy {
  import opened Basics

  /** A page of the site with its query parameters, or a caller-given local URL. */
  datatype Url = Page(path: string, params: seq<(string, int)>) | Given(url: string)

  /**
   * The `returnto` parameter.  Absent, it keeps its integer default `0`;
   * present, `PARAM_ALPHANUM` makes it a string, so `$returnto !== 0` holds
   * exactly when it was given (even as `"0"`).
   */
  datatype ReturnTo = Unset | Named(name: string)

  /** PHP truthiness of a string: neither empty nor `"0"`. */
  predicate Truthy(s: string) {
    s != "" && s != "0"
  }

  /** The `returnto` values with a fixed page of their own. */
  predicate FixedTarget(r: ReturnTo) {
    r.Named? && r.name in ["category", "catmanage", "topcatmanage", "topcat", "pending"]
  }

  /**
   * The return URL of `copy.php`.  A caller-given `returnurl` is used only
   * with `returnto` equal to `url`, a valid session key and a truthy URL;
   * otherwise the course page (or the course index when `id` is 0) is the
   * default, which the five named `returnto` values replace by their page.
   * The `switch` compares two non-numeric strings, which PHP does by value.
   */
  function ReturnUrl(returnto: ReturnTo, sesskeyOk: bool, returnurl: string, id: int, categoryid: int): (u: Url)
    ensures u.Given? <==> returnto == Named("url") && sesskeyOk && Truthy(returnurl)
    ensures u.Given? ==> u.url == returnurl
  {
    if returnto == Named("url") && sesskeyOk && Truthy(returnurl) then Given(returnurl)
    else
      var default := if id != 0 then Page("/course/view.php", [("id", id)]) else Page("/course/", []);
      match returnto
      case Unset => default
      case Named(name) =>
        if name == "category" then Page("/course/index.php", [("categoryid", categoryid)])
        else if name == "catmanage" then Page("/course/management.php", [("categoryid", categoryid)])
        else if name == "topcatmanage" then Page("/course/management.php", [])
        else if name == "topcat" then Page("/course/", [])
        else if name == "pending" then Page("/course/pending.php", [])
        else default
  }

  /**
   * The decision table of the return URL: which page each `returnto` leads
   * to when the caller-given URL is not used.  Only `category` and
   * `catmanage` pass the category id.
   */
  lemma ReturnUrlTable(returnto: ReturnTo, sesskeyOk: bool, returnurl: string, id: int, categoryid: int)
    requires !(returnto == Named("url") && sesskeyOk && Truthy(returnurl))
    ensures var u := ReturnUrl(returnto, sesskeyOk, returnurl, id, categoryid);
      && (u == Page("/course/view.php", [("id", id)]) <==> !FixedTarget(returnto) && id != 0)
      && (u.Page? && u.params != [] && u.params[0].0 == "categoryid" <==>
            returnto == Named("category") || returnto == Named("catmanage"))
      && (u == Page("/course/", []) <==> returnto == Named("topcat") || (!FixedTarget(returnto) && id == 0))
      && (u == Page("/course/management.php", []) <==> returnto == Named("topcatmanage"))
      && (u == Page("/course/pending.php", []) <==> returnto == Named("pending"))
  {
  }

  /** The submit buttons of the copy form. */
  datatype Button = CopyAndReturn | CopyAndDisplay | Cancel

  /**
   * The button group of `course_copy_form::definition`: "copy and return"
   * only when `returnto` was given, then "copy and display" and "cancel".
   */
  function Buttons(returnto: ReturnTo): (bs: seq<Button>)
    ensures CopyAndReturn in bs <==> returnto.Named?
    ensures |bs| >= 2 && bs[|bs| - 2..] == [CopyAndDisplay, Cancel]
    ensures forall i, j :: 0 <= i < j < |bs| ==> bs[i] != bs[j]
  {
    (if returnto.Named? then [CopyAndReturn] else []) + [CopyAndDisplay, Cancel]
  }

  /** The fields of a `course` record the copy touches. */
  datatype CourseRecord = CourseRecord(
    id: int, category: int, fullname: string, shortname: string,
    idnumber: string, startdate: int, enddate: int, visible: int)

  /**
   * The submitted form data.  Fields that may be missing after submission
   * (`isset` fails) are options; `copyanddisplay` says which submit button
   * was pressed.
   */
  datatype CopyData = CopyData(
    fullname: string, shortname: string, category: int, visible: int,
    startdate: Option<int>, enddate: Option<int>, idnumber: Option<string>,
    keeproles: Option<seq<int>>, copyanddisplay: bool)

  /**
   * After duplication: the new course's record with start date, end date
   * and idnumber replaced by the submitted ones where they were set.
   */
  function Overwrite(c: CourseRecord, data: CopyData): (r: CourseRecord)
    ensures r.id == c.id && r.category == c.category && r.visible == c.visible
    ensures r.fullname == c.fullname && r.shortname == c.shortname
    ensures data.startdate.None? ==> r.startdate == c.startdate
    ensures data.startdate.Some? ==> r.startdate == data.startdate.value
    ensures data.enddate.None? ==> r.enddate == c.enddate
    ensures data.enddate.Some? ==> r.enddate == data.enddate.value
    ensures data.idnumber.None? ==> r.idnumber == c.idnumber
    ensures data.idnumber.Some? ==> r.idnumber == data.idnumber.value
  {
    c.(startdate := data.startdate.GetOr(c.startdate),
       enddate := data.enddate.GetOr(c.enddate),
       idnumber := data.idnumber.GetOr(c.idnumber))
  }

  /** Overwriting twice with the same data changes nothing more. */
  lemma OverwriteIdempotent(c: CourseRecord, data: CopyData)
    ensures Overwrite(Overwrite(c, data), data) == Overwrite(c, data)
  {
  }

  /** What the page asks of the host. */
  datatype Action =
    | Duplicate(source: int, fullname: string, shortname: string, category: int, visible: int,
                options: seq<(string, int)>)
    | UpdateRecord(course: CourseRecord)
    | CopyManualEnrolments(target: int, source: int, role: int)
    | InternalEnrol(courseId: int, user: int, role: int)
    | Redirect(to: Url)

  /** The host's answers once the course has been duplicated. */
  datatype HostAnswers = HostAnswers(
    copied: CourseRecord,       // the new course's record
    creatorNewRole: int,        // $CFG->creatornewroleid
    user: int,
    canViewAssign: bool,        // is_viewing($context, null, 'moodle/role:assign')
    enrolledAssign: bool,       // is_enrolled($context, null, 'moodle/role:assign')
    enrolled: bool,             // is_enrolled($context)
    manualEnrolLinks: seq<bool>)  // per enabled enrolment instance: a plugin offering a manual-enrol link

  /** One `course_copy_manual_course_enrolments` call per kept role, in order. */
  function EnrolmentCopies(target: int, source: int, roles: seq<int>): (r: seq<Action>)
    ensures |r| == |roles|
    ensures forall i :: 0 <= i < |r| ==> r[i] == CopyManualEnrolments(target, source, roles[i])
  {
    if |roles| == 0 then [] else [CopyManualEnrolments(target, source, roles[0])] + EnrolmentCopies(target, source, roles[1..])
  }

  /**
   * The page to show after "copy and display": the new course, or its
   * enrolment page when the user is not enrolled and some enabled instance
   * offers a manual-enrol link (the loop stops at the first one).
   */
  function CourseUrl(copiedId: int, enrolled: bool, display: bool, manualEnrolLinks: seq<bool>): (u: Url)
    ensures u == Page("/enrol/users.php", [("id", copiedId), ("newcourse", 1)]) <==>
              !enrolled && display && true in manualEnrolLinks
    ensures u != Page("/enrol/users.php", [("id", copiedId), ("newcourse", 1)]) ==>
              u == Page("/course/view.php", [("id", copiedId)])
  {
    if !enrolled && display && true in manualEnrolLinks then Page("/enrol/users.php", [("id", copiedId), ("newcourse", 1)])
    else Page("/course/view.php", [("id", copiedId)])
  }

  /**
   * The actions of a submitted copy form for course `id`: duplicate with
   * the single option `users = 0`, write back the overwritten record, copy
   * the enrolments of each kept role, enrol a course creator who could not
   * otherwise assign roles, and redirect.
   */
  function SubmitActions(id: int, data: CopyData, host: HostAnswers, returnurl: Url): (r: seq<Action>)
    ensures |r| >= 3
    ensures r[0] == Duplicate(id, data.fullname, data.shortname, data.category, data.visible, [("users", 0)])
    ensures r[1] == UpdateRecord(Overwrite(host.copied, data))
    ensures r[|r| - 1].Redirect?
    ensures forall i :: 0 <= i < |r| - 1 ==> !r[i].Redirect?
  {
    var roles := if data.keeproles.Some? then data.keeproles.value else [];
    var creator :=
      if host.creatorNewRole != 0 && !host.canViewAssign && !host.enrolledAssign
      then [InternalEnrol(host.copied.id, host.user, host.creatorNewRole)]
      else [];
    var courseUrl := CourseUrl(host.copied.id, host.enrolled, data.copyanddisplay, host.manualEnrolLinks);
    var target := if data.copyanddisplay then courseUrl else returnurl;
    var copies := EnrolmentCopies(host.copied.id, id, roles);
    [Duplicate(id, data.fullname, data.shortname, data.category, data.visible, [("users", 0)]),
     UpdateRecord(Overwrite(host.copied, data))]
    + copies + creator + [Redirect(target)]
  }

  /**
   * Manual enrolments are copied exactly once per kept role, in the order
   * the roles were selected, from the source course into the new one.
   */
  lemma SubmitCopiesEachRole(id: int, data: CopyData, host: HostAnswers, returnurl: Url)
    ensures var r := SubmitActions(id, data, host, returnurl);
      var roles := if data.keeproles.Some? then data.keeproles.value else [];
      && |r| >= |roles| + 3
      && (forall i :: 0 <= i < |roles| ==> r[2 + i] == CopyManualEnrolments(host.copied.id, id, roles[i]))
      && (forall i :: 2 + |roles| <= i < |r| ==> !r[i].CopyManualEnrolments?)
  {
  }

  /**
   * The creator is enrolled internally, once and right before the
   * redirect, exactly when a creator role is configured and the user can
   * neither view nor is enrolled with the right to assign roles.
   */
  lemma SubmitEnrolsCreator(id: int, data: CopyData, host: HostAnswers, returnurl: Url)
    ensures var r := SubmitActions(id, data, host, returnurl);
      && ((exists i :: 0 <= i < |r| && r[i].InternalEnrol?)
          <==> host.creatorNewRole != 0 && !host.canViewAssign && !host.enrolledAssign)
      && (forall i :: 0 <= i < |r| && r[i].InternalEnrol? ==>
            i == |r| - 2 && r[i] == InternalEnrol(host.copied.id, host.user, host.creatorNewRole))
  {
    var r := SubmitActions(id, data, host, returnurl);
    var roles := if data.keeproles.Some? then data.keeproles.value else [];
    var front := [Duplicate(id, data.fullname, data.shortname, data.category, data.visible, [("users", 0)]),
                  UpdateRecord(Overwrite(host.copied, data))]
                 + EnrolmentCopies(host.copied.id, id, roles);
    var creator :=
      if host.creatorNewRole != 0 && !host.canViewAssign && !host.enrolledAssign
      then [InternalEnrol(host.copied.id, host.user, host.creatorNewRole)]
      else [];
    var last := r[|r| - 1];
    assert r == front + creator + [last];
    assert forall i :: 0 <= i < |front| ==> !front[i].InternalEnrol? by {
      assert forall i :: 2 <= i < |front| ==> front[i] == EnrolmentCopies(host.copied.id, id, roles)[i - 2];
    }
    OnlyCreatorEnrols(front, creator, last, r);
    if |creator| > 0 {
      assert r[|r| - 2] == creator[0];
    }
  }

  /** Among the actions, only those of `creator` can be internal enrolments. */
  lemma OnlyCreatorEnrols(front: seq<Action>, creator: seq<Action>, last: Action, r: seq<Action>)
    requires r == front + creator + [last]
    requires forall i :: 0 <= i < |front| ==> !front[i].InternalEnrol?
    requires !last.InternalEnrol?
    ensures forall i :: 0 <= i < |r| && r[i].InternalEnrol? ==>
              |front| <= i < |front| + |creator| && r[i] == creator[i - |front|]
  {
  }

  /**
   * The redirect of a submission: the course page (or the enrolment page)
   * exactly when "copy and display" was pressed, otherwise the return URL.
   */
  lemma SubmitRedirect(id: int, data: CopyData, host: HostAnswers, returnurl: Url)
    ensures var r := SubmitActions(id, data, host, returnurl);
      && (data.copyanddisplay ==>
            r[|r| - 1] == Redirect(CourseUrl(host.copied.id, host.enrolled, true, host.manualEnrolLinks)))
      && (!data.copyanddisplay ==> r[|r| - 1] == Redirect(returnurl))
  {
  }

  /**
   * What the page does with the form: a cancelled form only redirects to
   * the return URL, a submitted one runs the copy, and otherwise the form
   * is shown and nothing is asked of the host.
   */
  function PageActions(cancelled: bool, submitted: Option<CopyData>, id: int, host: HostAnswers, returnurl: Url)
    : (r: seq<Action>)
    ensures cancelled ==> r == [Redirect(returnurl)]
    ensures (exists i :: 0 <= i < |r| && r[i].Duplicate?) <==> !cancelled && submitted.Some?
    ensures !cancelled && submitted.None? ==> r == []
  {
    if cancelled then [Redirect(returnurl)]
    else if submitted.Some? then SubmitActions(id, submitted.value, host, returnurl)
    else []
  }

  // ---------------------------------------------------------------------
  // Validation of the copy form.
  // ---------------------------------------------------------------------

  /** The fields the duplicate checks look at. */
  datatype FormInput = FormInput(id: int, shortname: string, idnumber: string)

  /** The error a duplicate check reports, naming the course that clashes. */
  datatype FormError = ShortnameTaken(fullname: string) | IdnumberTaken(fullname: string)

  /**
   * `get_record` with `IGNORE_MULTIPLE`: the first course with the given
   * shortname (`byIdnumber` false) or idnumber (`byIdnumber` true).
   */
  function FirstCourse(courses: seq<CourseRecord>, byIdnumber: bool, value: string): (r: Option<CourseRecord>)
    ensures r.None? <==> forall c :: c in courses ==> (if byIdnumber then c.idnumber else c.shortname) != value
    ensures r.Some? ==> r.value in courses && (if byIdnumber then r.value.idnumber else r.value.shortname) == value
  {
    if |courses| == 0 then None
    else if (if byIdnumber then courses[0].idnumber else courses[0].shortname) == value then Some(courses[0])
    else FirstCourse(courses[1..], byIdnumber, value)
  }

  /** A clash with `c` counts unless the form's id is that course's id. */
  predicate OtherCourse(data: FormInput, c: CourseRecord) {
    data.id == 0 || c.id != data.id
  }

  /**
   * The duplicate checks of `course_copy_form::validation`, as written.
   * `data.id` is the hidden `id` field, which the form fills with the source
   * course, and `source` is that course.
   */
  function Validation(courses: seq<CourseRecord>, source: CourseRecord, data: FormInput): (errors: map<string, FormError>)
    ensures errors.Keys <= {"shortname", "idnumber"}
    ensures "shortname" in errors <==>
              var c := FirstCourse(courses, false, data.shortname); c.Some? && OtherCourse(data, c.value)
    ensures "shortname" in errors ==>
              exists c :: c in courses && c.shortname == data.shortname && errors["shortname"] == ShortnameTaken(c.fullname)
    ensures "idnumber" in errors <==>
              Truthy(data.idnumber) && (data.id == 0 || source.idnumber != data.idnumber) &&
              var c := FirstCourse(courses, true, data.idnumber); c.Some? && OtherCourse(data, c.value)
    ensures "idnumber" in errors ==>
              exists c :: c in courses && c.idnumber == data.idnumber && errors["idnumber"] == IdnumberTaken(c.fullname)
  {
    var byName := FirstCourse(courses, false, data.shortname);
    var e1: map<string, FormError> :=
      if byName.Some? && OtherCourse(data, byName.value) then map["shortname" := ShortnameTaken(byName.value.fullname)]
      else map[];
    var byNumber := FirstCourse(courses, true, data.idnumber);
    if Truthy(data.idnumber) && (data.id == 0 || source.idnumber != data.idnumber) &&
       byNumber.Some? && OtherCourse(data, byNumber.value)
    then e1["idnumber" := IdnumberTaken(byNumber.value.fullname)]
    else e1
  }

  /** No two courses of the table share a shortname. */
  ghost predicate UniqueShortnames(courses: seq<CourseRecord>) {
    forall i, j :: 0 <= i < j < |courses| ==> courses[i].shortname != courses[j].shortname
  }

  /**
   * With unique shortnames, a shortname error is reported exactly when some
   * course other than the one named by the form's id already has the
   * shortname; a course matching the form's id never causes one.
   */
  lemma ShortnameErrorExactly(courses: seq<CourseRecord>, source: CourseRecord, data: FormInput)
    requires UniqueShortnames(courses)
    ensures "shortname" in Validation(courses, source, data) <==>
              exists c :: c in courses && c.shortname == data.shortname && OtherCourse(data, c)
  {
    var f := FirstCourse(courses, false, data.shortname);
    if c :| c in courses && c.shortname == data.shortname && OtherCourse(data, c) {
      var i :| 0 <= i < |courses| && courses[i] == c;
      var j :| 0 <= j < |courses| && courses[j] == f.value;
      assert i == j;
    }
  }

  /** An empty or `"0"` idnumber is never checked for duplicates. */
  lemma EmptyIdnumberNotChecked(courses: seq<CourseRecord>, source: CourseRecord, data: FormInput)
    requires !Truthy(data.idnumber)
    ensures "idnumber" !in Validation(courses, source, data)
  {
  }

  /**
   * The form's id is the source course, so copying under the source's own
   * shortname and idnumber passes both checks: the source is the clashing
   * course and is excused as "the course being edited".
   */
  lemma SourceNamesAccepted(source: CourseRecord)
    requires source.id != 0
    ensures Validation([source], source, FormInput(source.id, source.shortname, source.idnumber)) == map[]
  {
  }

  /**
   * The checks as a copy needs them: the copy is a new course, so any
   * existing course with the shortname or the (truthy) idnumber clashes.
   */
  function CopyValidation(courses: seq<CourseRecord>, data: FormInput): (errors: map<string, FormError>)
    ensures errors.Keys <= {"shortname", "idnumber"}
    ensures "shortname" in errors <==> exists c :: c in courses && c.shortname == data.shortname
    ensures "idnumber" in errors <==>
              Truthy(data.idnumber) && exists c :: c in courses && c.idnumber == data.idnumber
  {
    var byName := FirstCourse(courses, false, data.shortname);
    var e1: map<string, FormError> :=
      if byName.Some? then map["shortname" := ShortnameTaken(byName.value.fullname)] else map[];
    var byNumber := FirstCourse(courses, true, data.idnumber);
    if Truthy(data.idnumber) && byNumber.Some? then e1["idnumber" := IdnumberTaken(byNumber.value.fullname)]
    else e1
  }

  /** Copying under the source's own shortname is refused by the corrected checks. */
  lemma SourceNamesRefused(source: CourseRecord)
    ensures "shortname" in CopyValidation([source], FormInput(source.id, source.shortname, source.idnumber))
  {
    assert source in [source];
  }
}
