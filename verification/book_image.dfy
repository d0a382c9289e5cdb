/** The book edit page's image picker: the size and type rule applied when a
    file is chosen, as an update of the (stored image, error message) pair. */
module BookImage {
  import opened Wrappers
  import opened Text

  /** The two properties of a chosen file the rule looks at. */
  datatype SelectedFile = SelectedFile(size: nat, mimeType: string)

  /** The part of the page state the handler changes. */
  datatype ImageForm = ImageForm(imagen: Option<SelectedFile>, error: string)

  const MaxImageSize: nat := 5000000
  const ImagePrefix: string := "image/"
  const SizeMessage: string := "La imagen no puede ser mayor a 5MB"
  const TypeMessage: string := "El archivo debe ser una imagen"

  /** A file the handler stores. */
  predicate Acceptable(f: SelectedFile) {
    f.size <= MaxImageSize && HasPrefix(f.mimeType, ImagePrefix)
  }

  /** The change handler for the file input: only the first chosen file is
      looked at; the size check comes before the type check; a rejection
      sets its message and keeps the stored image; an acceptance stores the
      file and clears the message. */
  function HandleImageChange(form: ImageForm, files: seq<SelectedFile>): (next: ImageForm)
    ensures |files| == 0 ==> next == form
    ensures |files| > 0 && files[0].size > 5000000 ==> next == form.(error := SizeMessage)
    ensures |files| > 0 && files[0].size <= 5000000 && !HasPrefix(files[0].mimeType, "image/") ==>
      next == form.(error := TypeMessage)
    ensures |files| > 0 ==> (next.error == "" <==> Acceptable(files[0]))
    ensures |files| > 0 && Acceptable(files[0]) ==> next.imagen == Some(files[0])
  {
    if |files| == 0 then form
    else
      var file := files[0];
      if file.size > MaxImageSize then form.(error := SizeMessage)
      else if !HasPrefix(file.mimeType, ImagePrefix) then form.(error := TypeMessage)
      else ImageForm(Some(file), "")
  }

  /** Every image the form holds satisfies the rule. */
  predicate StoredImageAcceptable(form: ImageForm) {
    form.imagen.Some? ==> Acceptable(form.imagen.value)
  }

  /** No sequence of choices can leave an unacceptable file stored. */
  lemma {:induction false} StoredImageStaysAcceptable(form: ImageForm, choices: seq<seq<SelectedFile>>)
    requires StoredImageAcceptable(form)
    ensures StoredImageAcceptable(ApplyChoices(form, choices))
    decreases |choices|
  {
    if |choices| > 0 {
      StoredImageStaysAcceptable(HandleImageChange(form, choices[0]), choices[1..]);
    }
  }

  /** The form after the user picks each file list of `choices` in turn. */
  function ApplyChoices(form: ImageForm, choices: seq<seq<SelectedFile>>): ImageForm
    decreases |choices|
  {
    if |choices| == 0 then form else ApplyChoices(HandleImageChange(form, choices[0]), choices[1..])
  }

  /** Choosing the same files twice has the effect of choosing them once. */
  lemma HandleImageChangeIdempotent(form: ImageForm, files: seq<SelectedFile>)
    ensures HandleImageChange(HandleImageChange(form, files), files) == HandleImageChange(form, files)
  {
  }

  /** The size bound is inclusive: a file of exactly 5,000,000 bytes with an
      image type is stored. */
  lemma ExactLimitAccepted(form: ImageForm, mimeType: string)
    requires HasPrefix(mimeType, ImagePrefix)
    ensures HandleImageChange(form, [SelectedFile(5000000, mimeType)]) == ImageForm(Some(SelectedFile(5000000, mimeType)), "")
  {
  }
}
