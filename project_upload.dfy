/** The final-project upload form: it appends a submission record to the
    stored project list and resets itself. */
module ProjectUpload {
  import opened Wrappers
  import opened Records
  import opened Storage

  const SubmittedStatus := "Submitted"
  const SubmittedText := "Project submitted successfully!"

  /** The selected file: its name and size in bytes. */
  datatype FileInfo = FileInfo(name: string, size: nat)

  class UploadForm {
    var title: string
    var description: string
    var file: Option<FileInfo>
    var success: string

    constructor ()
      ensures title == "" && description == "" && file == None && success == ""
    {
      title := "";
      description := "";
      file := None;
      success := "";
    }

    /** `handleSubmit`: with no file selected nothing is stored and the form is
        left as it is; otherwise one record is appended to `studentProjects`
        and the fields are cleared. `date` stands for the formatted clock
        reading; the record keeps the byte size, whose formatting is not
        modelled. */
    method Submit(store: Store, name: string, email: string, date: string) returns (ok: bool)
      modifies this, store`studentProjects
      ensures ok <==> old(file).Some?
      ensures !ok ==> store.studentProjects == old(store.studentProjects) &&
                      title == old(title) && description == old(description) &&
                      file == old(file) && success == old(success)
      ensures ok ==> store.studentProjects ==
                       old(store.studentProjects) +
                       [Project(name, email, old(title), old(description), old(file).value.name,
                                old(file).value.size, date, SubmittedStatus)]
      ensures ok ==> title == "" && description == "" && file == None && success == SubmittedText
    {
      if file.None? {
        return false;
      }
      var projects := store.studentProjects;
      var newProject := Project(name, email, title, description, file.value.name, file.value.size,
                                date, SubmittedStatus);
      projects := projects + [newProject];
      store.studentProjects := projects;
      success := SubmittedText;
      title := "";
      description := "";
      file := None;
      ok := true;
    }
  }
}
