/** The student dashboard's attendance figures. */
module StudentDashboard {
  import opened Records
  import opened Rounding

  /** `present + absent + leave`. */
  function TotalClasses(a: Attendance): (total: int)
    ensures a.present >= 0 && a.absent >= 0 && a.leave >= 0 ==> 0 <= a.present <= total
    ensures total == 0 && a.present >= 0 && a.absent >= 0 && a.leave >= 0 ==> a == Attendance(0, 0, 0)
  {
    a.present + a.absent + a.leave
  }

  /** `totalClasses > 0 ? Math.round(present / totalClasses * 100) : 0`. */
  function AttendanceRate(a: Attendance): (rate: int)
    ensures TotalClasses(a) <= 0 ==> rate == 0
    ensures TotalClasses(a) > 0 ==>
              2 * TotalClasses(a) * rate <= 200 * a.present + TotalClasses(a) < 2 * TotalClasses(a) * rate + 2 * TotalClasses(a)
    ensures a.present >= 0 && a.absent >= 0 && a.leave >= 0 ==> 0 <= rate <= 100
    ensures a.present > 0 && a.absent == 0 && a.leave == 0 ==> rate == 100
    ensures TotalClasses(a) > 0 && a.present == 0 ==> rate == 0
  {
    var total := TotalClasses(a);
    if total > 0 then
      PercentEnds(total);
      if a.present >= 0 && a.absent >= 0 && a.leave >= 0 then
        PercentBounds(a.present, total);
        Percent(a.present, total)
      else Percent(a.present, total)
    else 0
  }
}
