/**
 * The errors a call through the podman varlink connection can return, and the
 * diagnostic string SprintError renders from them.
 *
 * Go inspects the dynamic type of an `error` value; here each concrete error type
 * the translator recognises is one variant. Every variant carries `text`, the
 * error's own `%v` rendering (opaque: it is produced by foreign code), and the
 * named field(s) the translator prints. `Other` stands for every unrecognised
 * error type: its `%T` name and its `%v` text.
 */
module PodmanErrors {
  import opened Text

  datatype Error =
    | ImageNotFound(text: string, id: string)
    | ContainerNotFound(text: string, id: string)
    | NoContainerRunning(text: string)
    | PodNotFound(text: string, name: string)
    | PodContainerError(text: string, podname: string, errors: string)
    | NoContainersInPod(text: string, name: string)
    | ErrorOccurred(text: string, reason: string)
    | RuntimeError(text: string, reason: string)
    | InvalidParameter(text: string, parameter: string)
    | MethodNotFound(text: string, methodName: string)
    | MethodNotImplemented(text: string, methodName: string)
    | InterfaceNotFound(text: string, iface: string)
    | VarlinkError(text: string, parameters: string)
    | EOF
    | UnexpectedEOF
    | Other(typeName: string, text: string)

  /** The error fmt.Errorf builds from a message: a plain *errors.errorString. */
  function Errorf(msg: string): Error
  {
    Other("*errors.errorString", msg)
  }

  /** The first line written to the buffer, naming the method that failed. */
  function Header(methodname: string): string
  {
    "Error calling " + methodname + ": "
  }

  function Quote(s: string): string
  {
    "'" + s + "'"
  }

  /** The common "'%v' tag='%s'" shape. */
  function Labelled(text: string, tag: string, value: string): string
  {
    Quote(text) + tag + Quote(value)
  }

  /**
   * What the type switch appends after the header, one case per error kind; every
   * case's format ends with a newline, which Detail adds once.
   */
  function Detail(err: Error): string
  {
    Line(err) + "\n"
  }

  function Line(err: Error): string
  {
    match err
    case ImageNotFound(text, id) => Labelled(text, " name=", id)
    case ContainerNotFound(text, id) => Labelled(text, " name=", id)
    case NoContainerRunning(text) => Quote(text)
    case PodNotFound(text, name) => Labelled(text, " name=", name)
    case PodContainerError(text, podname, errors) =>
      Labelled(text, " podname=", podname) + " errors=" + Quote(errors)
    case NoContainersInPod(text, name) => Labelled(text, " name=", name)
    case ErrorOccurred(text, reason) => Labelled(text, " reason=", reason)
    case RuntimeError(text, reason) => Labelled(text, " reason=", reason)
    case InvalidParameter(text, parameter) => Labelled(text, " parameter=", parameter)
    case MethodNotFound(text, methodName) => Labelled(text, " method=", methodName)
    case MethodNotImplemented(text, methodName) => Labelled(text, " method=", methodName)
    case InterfaceNotFound(text, iface) => Labelled(text, " interface=", iface)
    case VarlinkError(text, parameters) => Labelled(text, " parameters=", parameters)
    case EOF => "Connection closed"
    case UnexpectedEOF => "Connection aborted"
    case Other(typeName, text) => typeName + " - " + Quote(text)
  }

  /**
   * The diagnostic for a failed call of `methodname`: it always opens with the
   * header naming the method and always ends a line.
   */
  function SprintError(methodname: string, err: Error): (r: string)
    ensures HasPrefix(r, Header(methodname))
    ensures IsInfix(methodname, r)
    ensures |r| > |Header(methodname)| && r[|r| - 1] == '\n'
  {
    var r := Header(methodname) + Detail(err);
    assert r[..|Header(methodname)|] == Header(methodname);
    InfixAtEnd("Error calling ", methodname);
    InfixExtendedRight(methodname, "Error calling " + methodname, ": ");
    InfixExtendedRight(methodname, Header(methodname), Detail(err));
    r
  }

  /** The values the diagnostic must show verbatim: the `%v` text and every named field. */
  function Shown(err: Error): seq<string>
  {
    match err
    case ImageNotFound(text, id) => [text, id]
    case ContainerNotFound(text, id) => [text, id]
    case NoContainerRunning(text) => [text]
    case PodNotFound(text, name) => [text, name]
    case PodContainerError(text, podname, errors) => [text, podname, errors]
    case NoContainersInPod(text, name) => [text, name]
    case ErrorOccurred(text, reason) => [text, reason]
    case RuntimeError(text, reason) => [text, reason]
    case InvalidParameter(text, parameter) => [text, parameter]
    case MethodNotFound(text, methodName) => [text, methodName]
    case MethodNotImplemented(text, methodName) => [text, methodName]
    case InterfaceNotFound(text, iface) => [text, iface]
    case VarlinkError(text, parameters) => [text, parameters]
    case EOF => []
    case UnexpectedEOF => []
    case Other(typeName, text) => [typeName, text]
  }

  lemma QuotedAtEnd(pre: string, x: string)
    ensures IsInfix(x, pre + Quote(x))
  {
    var hay := pre + Quote(x);
    assert hay[|pre| + 1..][..|x|] == x;
    assert HasPrefix(hay[|pre| + 1..], x);
  }

  /** The text and the field of a "'text' tag='value'" line both appear in it. */
  lemma LabelledShown(text: string, tag: string, value: string)
    ensures IsInfix(text, Labelled(text, tag, value))
    ensures IsInfix(value, Labelled(text, tag, value))
  {
    InfixAtStart(text, "'");
    InfixAtEnd("'", text + "'");
    assert Quote(text) == "'" + (text + "'");
    InfixExtendedRight(text, Quote(text), tag + Quote(value));
    assert Labelled(text, tag, value) == Quote(text) + (tag + Quote(value));
    QuotedAtEnd(Quote(text) + tag, value);
  }

  /** A line of the "'text' tag='value'" shape shows both of its values. */
  lemma LabelledCase(err: Error, text: string, tag: string, value: string)
    requires Shown(err) == [text, value] && Line(err) == Labelled(text, tag, value)
    ensures forall s :: s in Shown(err) ==> IsInfix(s, Line(err))
  {
    LabelledShown(text, tag, value);
  }

  lemma PodContainerErrorCase(text: string, podname: string, errors: string)
    ensures var err := PodContainerError(text, podname, errors);
      forall s :: s in Shown(err) ==> IsInfix(s, Line(err))
  {
    var head := Labelled(text, " podname=", podname);
    assert Line(PodContainerError(text, podname, errors)) == head + " errors=" + Quote(errors);
    LabelledShown(text, " podname=", podname);
    InfixExtendedRight(text, head, " errors=");
    InfixExtendedRight(text, head + " errors=", Quote(errors));
    InfixExtendedRight(podname, head, " errors=");
    InfixExtendedRight(podname, head + " errors=", Quote(errors));
    QuotedAtEnd(head + " errors=", errors);
  }

  lemma OtherCase(typeName: string, text: string)
    ensures var err := Other(typeName, text);
      forall s :: s in Shown(err) ==> IsInfix(s, Line(err))
  {
    InfixAtStart(typeName, " - ");
    InfixExtendedRight(typeName, typeName + " - ", Quote(text));
    QuotedAtEnd(typeName + " - ", text);
  }

  /** Every value in Shown(err) appears verbatim in the case's line. */
  lemma {:induction false} ShownInLine(err: Error)
    ensures forall s :: s in Shown(err) ==> IsInfix(s, Line(err))
  {
    match err
    case ImageNotFound(text, id) => LabelledCase(err, text, " name=", id);
    case ContainerNotFound(text, id) => LabelledCase(err, text, " name=", id);
    case NoContainerRunning(text) =>
      QuotedAtEnd("", text);
      assert "" + Quote(text) == Quote(text);
    case PodNotFound(text, name) => LabelledCase(err, text, " name=", name);
    case PodContainerError(text, podname, errors) => PodContainerErrorCase(text, podname, errors);
    case NoContainersInPod(text, name) => LabelledCase(err, text, " name=", name);
    case ErrorOccurred(text, reason) => LabelledCase(err, text, " reason=", reason);
    case RuntimeError(text, reason) => LabelledCase(err, text, " reason=", reason);
    case InvalidParameter(text, parameter) => LabelledCase(err, text, " parameter=", parameter);
    case MethodNotFound(text, methodName) => LabelledCase(err, text, " method=", methodName);
    case MethodNotImplemented(text, methodName) => LabelledCase(err, text, " method=", methodName);
    case InterfaceNotFound(text, iface) => LabelledCase(err, text, " interface=", iface);
    case VarlinkError(text, parameters) => LabelledCase(err, text, " parameters=", parameters);
    case EOF =>
    case UnexpectedEOF =>
    case Other(typeName, text) => OtherCase(typeName, text);
  }

  /**
   * For every recognised error kind the diagnostic contains the error's text and
   * each of its named fields verbatim; an unrecognised error shows its type name
   * and text.
   */
  lemma ShownVerbatim(methodname: string, err: Error)
    ensures forall s :: s in Shown(err) ==> IsInfix(s, SprintError(methodname, err))
  {
    ShownInLine(err);
    forall s | s in Shown(err)
      ensures IsInfix(s, SprintError(methodname, err))
    {
      InfixExtended(s, Header(methodname), Line(err), "\n");
      assert SprintError(methodname, err) == Header(methodname) + Line(err) + "\n";
    }
  }

  /** Every line except the two connection sentinels ends in a closing quote. */
  lemma LineEndsQuoted(err: Error)
    requires !err.EOF? && !err.UnexpectedEOF?
    ensures |Line(err)| > 0 && Line(err)[|Line(err)| - 1] == '\''
  {
  }

  lemma CancelHeader(methodname: string, x: string, y: string)
    requires Header(methodname) + x == Header(methodname) + y
    ensures x == y
  {
    var h := Header(methodname);
    assert (h + x)[|h|..] == x;
    assert (h + y)[|h|..] == y;
  }

  /** A clean end of stream, and only that, is reported as "Connection closed". */
  lemma ClosedOnlyForEOF(methodname: string, err: Error)
    ensures SprintError(methodname, err) == Header(methodname) + "Connection closed\n" <==> err == EOF
  {
    if SprintError(methodname, err) == Header(methodname) + "Connection closed\n" {
      CancelHeader(methodname, Detail(err), "Connection closed\n");
      assert Line(err) == Detail(err)[..|Detail(err)| - 1];
      if !err.EOF? && !err.UnexpectedEOF? {
        LineEndsQuoted(err);
      }
    }
  }

  /** An abrupt end of stream, and only that, is reported as "Connection aborted". */
  lemma AbortedOnlyForUnexpectedEOF(methodname: string, err: Error)
    ensures SprintError(methodname, err) == Header(methodname) + "Connection aborted\n" <==> err == UnexpectedEOF
  {
    if SprintError(methodname, err) == Header(methodname) + "Connection aborted\n" {
      CancelHeader(methodname, Detail(err), "Connection aborted\n");
      assert Line(err) == Detail(err)[..|Detail(err)| - 1];
      if !err.EOF? && !err.UnexpectedEOF? {
        LineEndsQuoted(err);
      }
    }
  }

  /** For a given error, the diagnostic determines the name of the failing method. */
  lemma {:induction false} MethodNameDetermined(m1: string, m2: string, err: Error)
    requires SprintError(m1, err) == SprintError(m2, err)
    ensures m1 == m2
  {
    var h1, h2 := Header(m1), Header(m2);
    assert |h1| == |h2| by {
      assert |h1 + Detail(err)| == |h2 + Detail(err)|;
    }
    assert h1 == h2 by {
      assert SprintError(m1, err)[..|h1|] == h1;
      assert SprintError(m2, err)[..|h2|] == h2;
    }
    assert h1[14..14 + |m1|] == m1;
    assert h2[14..14 + |m2|] == m2;
  }
}
