/** The rules of CommonValidators, as written: the startup code registers no
 *  FluentValidation, so no request passes through them. They cover the field formats
 *  (CPF, CEP, telephone, strong password) as the .NET patterns match them, the emptiness
 *  and length rules, and for each form the list of failure messages its validator
 *  reports, one per failing rule, in rule order (every rule of a field is checked). A
 *  pattern's `$` also matches just before a final line feed; digit classes are
 *  restricted to ASCII. The e-mail format check of the validation library is a
 *  parameter. */
module Validators {
  import opened Wrappers
  import opened Text
  import opened Models
  import opened AlunoService
  import opened UsuarioService

  // ---------------------------------------------------------------------------
  // Patterns

  /** The text a pattern anchored with `^...$` has to match in full: the string, or the
   *  string without one final line feed. */
  predicate Anchored(s: string, p: string -> bool) {
    p(s) || (|s| > 0 && s[|s| - 1] == '\n' && p(s[..|s| - 1]))
  }

  /** The digits of a string, in order. */
  function DigitsOf(s: string): (r: string)
    ensures AllDigits(r) && |r| <= |s|
    ensures AllDigits(s) ==> r == s
  {
    if |s| == 0 then ""
    else if IsDigit(s[0]) then [s[0]] + DigitsOf(s[1..])
    else DigitsOf(s[1..])
  }

  lemma {:induction false} DigitsOfAppend(a: string, b: string)
    ensures DigitsOf(a + b) == DigitsOf(a) + DigitsOf(b)
    decreases |a|
  {
    if |a| == 0 {
      assert a + b == b;
    } else {
      assert (a + b)[0] == a[0];
      assert (a + b)[1..] == a[1..] + b;
      DigitsOfAppend(a[1..], b);
    }
  }

  /** A separator that is not a digit leaves no trace in the digits. */
  lemma DigitsOfSeparated(x: string, c: char, y: string)
    requires !IsDigit(c)
    ensures DigitsOf(x + [c] + y) == DigitsOf(x) + DigitsOf(y)
  {
    DigitsOfAppend(x + [c], y);
    DigitsOfAppend(x, [c]);
  }

  /** `\d{3}\.\d{3}\.\d{3}-\d{2}` */
  predicate DottedCpf(s: string) {
    |s| == 14 && s[3] == '.' && s[7] == '.' && s[11] == '-'
    && AllDigits(s[..3]) && AllDigits(s[4..7]) && AllDigits(s[8..11]) && AllDigits(s[12..])
  }

  /** `\d{11}` */
  predicate BareCpf(s: string) {
    |s| == 11 && AllDigits(s)
  }

  /** `^\d{3}\.\d{3}\.\d{3}-\d{2}$|^\d{11}$` */
  predicate CpfPattern(s: string) {
    Anchored(s, DottedCpf) || Anchored(s, BareCpf)
  }

  /** The dotted form of eleven digits. */
  function FormatCpf(d: string): (r: string)
    requires |d| == 11
  {
    d[..3] + "." + d[3..6] + "." + d[6..9] + "-" + d[9..]
  }

  /** The dotted form of eleven digits matches the pattern. */
  lemma FormatCpfMatches(d: string)
    requires BareCpf(d)
    ensures DottedCpf(FormatCpf(d)) && CpfPattern(FormatCpf(d)) && CpfPattern(d)
  {
    var f := FormatCpf(d);
    assert f[..3] == d[..3] && f[4..7] == d[3..6] && f[8..11] == d[6..9] && f[12..] == d[9..];
  }

  /** The dotted form of eleven digits carries exactly those digits. */
  lemma FormatCpfDigits(d: string)
    requires BareCpf(d)
    ensures DigitsOf(FormatCpf(d)) == d
  {
    var x := d[..3] + "." + d[3..6] + "." + d[6..9];
    assert FormatCpf(d) == x + ['-'] + d[9..];
    DigitsOfSeparated(x, '-', d[9..]);
    DigitsOfSeparated(d[..3] + "." + d[3..6], '.', d[6..9]);
    DigitsOfSeparated(d[..3], '.', d[3..6]);
    assert d == d[..3] + d[3..6] + d[6..9] + d[9..];
  }

  /** Conversely, a matching CPF is one of the two forms of its own eleven digits,
   *  possibly followed by a line feed: only the format is checked, never the check
   *  digits. */
  lemma CpfPatternForms(s: string)
    requires CpfPattern(s)
    ensures var b := if DottedCpf(s) || BareCpf(s) then s else s[..|s| - 1];
      var d := DigitsOf(b);
      |d| == 11 && (b == d || b == FormatCpf(d)) && (b == s || s == b + "\n")
  {
    var b := if DottedCpf(s) || BareCpf(s) then s else s[..|s| - 1];
    if DottedCpf(b) {
      var d := b[..3] + b[4..7] + b[8..11] + b[12..];
      assert d[..3] == b[..3] && d[3..6] == b[4..7] && d[6..9] == b[8..11] && d[9..] == b[12..];
      assert BareCpf(d);
      assert FormatCpf(d) == b;
      FormatCpfDigits(d);
    }
    if !(DottedCpf(s) || BareCpf(s)) {
      assert s == s[..|s| - 1] + "\n";
    }
  }

  /** `^\d{5}-?\d{3}$` */
  predicate CepCore(s: string) {
    (|s| == 8 && AllDigits(s)) || (|s| == 9 && AllDigits(s[..5]) && s[5] == '-' && AllDigits(s[6..]))
  }

  predicate CepPattern(s: string) {
    Anchored(s, CepCore)
  }

  /** A matching CEP has eight digits, with or without the hyphen after the fifth. */
  lemma CepPatternDigits(s: string)
    requires CepPattern(s)
    ensures var b := if CepCore(s) then s else s[..|s| - 1];
      var d := DigitsOf(b);
      |d| == 8 && (b == d || b == d[..5] + "-" + d[5..])
  {
    var b := if CepCore(s) then s else s[..|s| - 1];
    if |b| == 9 {
      assert b == b[..5] + "-" + b[6..];
      DigitsOfAppend(b[..5] + "-", b[6..]);
      DigitsOfAppend(b[..5], "-");
    }
  }

  /** `^\(\d{2}\)\s\d{4,5}-\d{4}$` (`\s` is .NET white space). */
  predicate TelefoneCore(s: string) {
    (|s| == 14 || |s| == 15)
    && s[0] == '(' && IsDigit(s[1]) && IsDigit(s[2]) && s[3] == ')' && IsWhiteSpace(s[4])
    && AllDigits(s[5..|s| - 5]) && s[|s| - 5] == '-' && AllDigits(s[|s| - 4..])
  }

  predicate TelefonePattern(s: string) {
    Anchored(s, TelefoneCore)
  }

  /** The telephone of an area code and a 8- or 9-digit number. */
  function FormatTelefone(ddd: string, numero: string): (r: string)
    requires |ddd| == 2 && (|numero| == 8 || |numero| == 9)
  {
    "(" + ddd + ") " + numero[..|numero| - 4] + "-" + numero[|numero| - 4..]
  }

  /** Every area code and 8- or 9-digit number make a matching telephone. */
  lemma FormatTelefoneMatches(ddd: string, numero: string)
    requires |ddd| == 2 && AllDigits(ddd) && (|numero| == 8 || |numero| == 9) && AllDigits(numero)
    ensures TelefonePattern(FormatTelefone(ddd, numero))
  {
    var n := |numero|;
    var f := FormatTelefone(ddd, numero);
    assert f[5..|f| - 5] == numero[..n - 4] && f[|f| - 4..] == numero[n - 4..];
  }

  /** The area code and the separators around it contribute the area code's digits. */
  lemma TelefonePrefixDigits(ddd: string)
    requires |ddd| == 2 && AllDigits(ddd)
    ensures DigitsOf("(" + ddd + ") ") == ddd
  {
    assert "(" + ddd + ") " == [] + ['('] + (ddd + [')', ' ']);
    DigitsOfSeparated([], '(', ddd + [')', ' ']);
    DigitsOfAppend(ddd, [')', ' ']);
  }

  /** The telephone carries exactly the digits of its area code and number. */
  lemma FormatTelefoneDigits(ddd: string, numero: string)
    requires |ddd| == 2 && AllDigits(ddd) && (|numero| == 8 || |numero| == 9) && AllDigits(numero)
    ensures DigitsOf(FormatTelefone(ddd, numero)) == ddd + numero
  {
    var n := |numero|;
    var rest := numero[..n - 4] + ['-'] + numero[n - 4..];
    assert FormatTelefone(ddd, numero) == ("(" + ddd + ") ") + rest;
    DigitsOfAppend("(" + ddd + ") ", rest);
    TelefonePrefixDigits(ddd);
    DigitsOfSeparated(numero[..n - 4], '-', numero[n - 4..]);
    assert numero == numero[..n - 4] + numero[n - 4..];
  }

  /** Every telephone the pattern accepts has 10 or 11 digits. */
  lemma TelefoneCoreDigits(s: string)
    requires TelefoneCore(s)
    ensures |DigitsOf(s)| == 10 || |DigitsOf(s)| == 11
  {
    var m := |s|;
    assert s == (((([] + [s[0]] + s[1..3]) + [s[3]] + []) + [s[4]] + s[5..m - 5]) + [s[m - 5]] + s[m - 4..]);
    DigitsOfSeparated((([] + [s[0]] + s[1..3]) + [s[3]] + []) + [s[4]] + s[5..m - 5], s[m - 5], s[m - 4..]);
    assert !IsDigit(s[4]);
    DigitsOfSeparated(([] + [s[0]] + s[1..3]) + [s[3]] + [], s[4], s[5..m - 5]);
    DigitsOfSeparated([] + [s[0]] + s[1..3], s[3], []);
    DigitsOfSeparated([], s[0], s[1..3]);
  }

  /** `(?=.*C)` at the start: some character of class C comes before any line feed
   *  (`.` stops at line feeds). */
  predicate Lookahead(s: string, c: char -> bool) {
    exists i :: 0 <= i < |s| && c(s[i]) && forall j :: 0 <= j < i ==> s[j] != '\n'
  }

  /** `^(?=.*[a-z])(?=.*[A-Z])(?=.*\d)` */
  predicate SenhaForte(s: string) {
    Lookahead(s, IsLower) && Lookahead(s, IsUpper) && Lookahead(s, IsDigit)
  }

  /** The text before the first line feed. */
  function FirstLine(s: string): (r: string)
    ensures forall i :: 0 <= i < |r| ==> r[i] != '\n'
  {
    s[..IndexOf(s, '\n', 0)]
  }

  /** A password is strong exactly when its first line has a lower-case letter, an
   *  upper-case letter and a digit. */
  lemma SenhaForteFirstLine(s: string)
    ensures SenhaForte(s) <==>
      (exists i :: 0 <= i < |FirstLine(s)| && IsLower(FirstLine(s)[i]))
      && (exists i :: 0 <= i < |FirstLine(s)| && IsUpper(FirstLine(s)[i]))
      && (exists i :: 0 <= i < |FirstLine(s)| && IsDigit(FirstLine(s)[i]))
  {
    var n := IndexOf(s, '\n', 0);
    var f := FirstLine(s);
    assert !IsLower('\n') && !IsUpper('\n') && !IsDigit('\n');
    forall c: char -> bool | !c('\n')
      ensures Lookahead(s, c) <==> exists i :: 0 <= i < |f| && c(f[i])
    {
      if Lookahead(s, c) {
        var i :| 0 <= i < |s| && c(s[i]) && forall j :: 0 <= j < i ==> s[j] != '\n';
        assert n < |s| ==> s[n] == '\n';
        assert f[i] == s[i];
      }
      if i :| 0 <= i < |f| && c(f[i]) {
        assert s[i] == f[i];
      }
    }
  }

  // ---------------------------------------------------------------------------
  // Rules

  /** NotEmpty on a string: not null and not only white space. */
  predicate NotEmpty(s: string) {
    !IsNullOrWhiteSpace(Some(s))
  }

  /** A pattern rule applied When the value is not null or empty. */
  predicate OptionalMatch(s: Option<string>, p: string -> bool) {
    IsNullOrEmpty(s) || p(s.value)
  }

  /** The message of one rule when it fails. */
  function Check(ok: bool, message: string): (r: seq<string>)
    ensures r == [] <==> ok
    ensures ok || r == [message]
  {
    if ok then [] else [message]
  }

  const EmailObrigatorio := "Email é obrigatório"
  const EmailFormato := "Email deve ter um formato válido"
  const EmailFormatoLogin := "Email deve ter formato válido"
  const EmailTamanho := "Email deve ter no máximo 100 caracteres"
  const MatriculaObrigatoria := "Matrícula é obrigatória"
  const MatriculaTamanho := "Matrícula deve ter no máximo 20 caracteres"
  const NomeCompletoObrigatorio := "Nome completo é obrigatório"
  const NomeCompletoCurto := "Nome completo deve ter pelo menos 2 caracteres"
  const NomeCompletoLongo := "Nome completo deve ter no máximo 150 caracteres"
  const NascimentoObrigatorio := "Data de nascimento é obrigatória"
  const NascimentoFuturo := "Data de nascimento deve ser anterior a hoje"
  const NascimentoInvalido := "Data de nascimento inválida"
  const CpfFormato := "CPF deve ter formato válido (XXX.XXX.XXX-XX ou 11 dígitos)"
  const CepFormato := "CEP deve ter formato válido (XXXXX-XXX)"
  const EmailResponsavelFormato := "Email do responsável deve ter formato válido"
  const EscolaInvalida := "EscolaId deve ser um valor válido"
  const SenhaObrigatoria := "Senha é obrigatória"
  const SenhaCurta := "Senha deve ter pelo menos 6 caracteres"
  const SenhaAtualObrigatoria := "Senha atual é obrigatória"
  const NovaSenhaObrigatoria := "Nova senha é obrigatória"
  const NovaSenhaCurta := "Nova senha deve ter pelo menos 6 caracteres"
  const NovaSenhaFraca := "Nova senha deve conter pelo menos uma letra minúscula, uma maiúscula e um número"
  const ConfirmacaoDiferente := "Confirmação de senha deve ser igual à nova senha"
  const NomeObrigatorio := "Nome é obrigatório"
  const NomeCurto := "Nome deve ter pelo menos 2 caracteres"
  const NomeLongo := "Nome deve ter no máximo 100 caracteres"
  const TelefoneFormato := "Telefone deve ter formato válido (XX) XXXXX-XXXX"

  /** DateTime's default value, 0001-01-01, in seconds from the Unix epoch. */
  const DataPadrao: Time := -62135596800

  // ---------------------------------------------------------------------------
  // Validators

  /** The e-mail rules: filled, well formed, at most 100 long. */
  function EmailErrors(email: string, formato: string, emailValido: string -> bool): (r: seq<string>)
    ensures r == [] <==> NotEmpty(email) && emailValido(email) && |email| <= 100
    ensures !NotEmpty(email) ==> r[0] == EmailObrigatorio
    ensures forall m :: m in r ==> m == EmailObrigatorio || m == formato || m == EmailTamanho
  {
    Check(NotEmpty(email), EmailObrigatorio) + Check(emailValido(email), formato)
    + Check(|email| <= 100, EmailTamanho)
  }

  /** The messages of the student data rules. */
  const DadosAlunoMessages: set<string> :=
    {NomeCompletoObrigatorio, NomeCompletoCurto, NomeCompletoLongo, NascimentoObrigatorio, NascimentoFuturo,
     NascimentoInvalido, CpfFormato, CepFormato, EmailResponsavelFormato, EscolaInvalida}

  /** The student data rules shared by the creation and update validators (full name,
   *  birth date, CPF, CEP, guardian e-mail, school); `hoje` is today and `limite` today
   *  120 years ago. */
  function DadosAlunoErrors(d: DadosAluno, hoje: Time, limite: Time, emailValido: string -> bool): (r: seq<string>)
    ensures r == [] <==>
      && NotEmpty(d.nomeCompleto) && 2 <= |d.nomeCompleto| <= 150
      && d.dataNascimento != DataPadrao && limite < d.dataNascimento < hoje
      && OptionalMatch(d.cpf, CpfPattern) && OptionalMatch(d.cep, CepPattern)
      && OptionalMatch(d.emailResponsavel, emailValido) && d.escolaId > 0
    ensures CpfFormato in r <==> !OptionalMatch(d.cpf, CpfPattern)
    ensures NascimentoFuturo in r <==> d.dataNascimento >= hoje
  {
    Check(NotEmpty(d.nomeCompleto), NomeCompletoObrigatorio) + Check(|d.nomeCompleto| >= 2, NomeCompletoCurto)
    + Check(|d.nomeCompleto| <= 150, NomeCompletoLongo)
    + Check(d.dataNascimento != DataPadrao, NascimentoObrigatorio) + Check(d.dataNascimento < hoje, NascimentoFuturo)
    + Check(d.dataNascimento > limite, NascimentoInvalido)
    + Check(OptionalMatch(d.cpf, CpfPattern), CpfFormato) + Check(OptionalMatch(d.cep, CepPattern), CepFormato)
    + Check(OptionalMatch(d.emailResponsavel, emailValido), EmailResponsavelFormato)
    + Check(d.escolaId > 0, EscolaInvalida)
  }

  /** The student data rules report only their own messages. */
  lemma DadosAlunoReportsOwnMessages(d: DadosAluno, hoje: Time, limite: Time, emailValido: string -> bool)
    ensures forall m :: m in DadosAlunoErrors(d, hoje, limite, emailValido) ==> m in DadosAlunoMessages
  {
  }

  /** CreateAlunoValidator: the e-mail, the enrollment code (filled, at most 20 long),
   *  then the student data. */
  function CreateAlunoErrors(form: AlunoForm, hoje: Time, limite: Time, emailValido: string -> bool): (r: seq<string>)
    ensures r == [] <==>
      && EmailErrors(form.email, EmailFormato, emailValido) == []
      && NotEmpty(form.matricula) && |form.matricula| <= 20
      && DadosAlunoErrors(form.dados, hoje, limite, emailValido) == []
    ensures MatriculaObrigatoria in r <==> !NotEmpty(form.matricula)
  {
    MatriculaNotAmongOthers(form.email, form.dados, hoje, limite, emailValido);
    EmailErrors(form.email, EmailFormato, emailValido)
    + Check(NotEmpty(form.matricula), MatriculaObrigatoria) + Check(|form.matricula| <= 20, MatriculaTamanho)
    + DadosAlunoErrors(form.dados, hoje, limite, emailValido)
  }

  /** Neither the e-mail nor the student data rules report the enrollment code message. */
  lemma MatriculaNotAmongOthers(email: string, d: DadosAluno, hoje: Time, limite: Time, emailValido: string -> bool)
    ensures MatriculaObrigatoria !in EmailErrors(email, EmailFormato, emailValido)
    ensures MatriculaObrigatoria !in DadosAlunoErrors(d, hoje, limite, emailValido)
  {
    DadosAlunoReportsOwnMessages(d, hoje, limite, emailValido);
    // No other message has the length of this one.
    assert |MatriculaObrigatoria| == 23;
    assert |EmailObrigatorio| == 19 && |EmailFormato| == 32 && |EmailTamanho| == 39;
    assert MatriculaObrigatoria !in DadosAlunoMessages by {
      assert |NomeCompletoObrigatorio| == 27 && |NomeCompletoCurto| == 46 && |NomeCompletoLongo| == 47 && |NascimentoObrigatorio| == 32;
      assert |NascimentoFuturo| == 43 && |NascimentoInvalido| == 27 && |CpfFormato| == 58 && |CepFormato| == 39;
      assert |EmailResponsavelFormato| == 44 && |EscolaInvalida| == 33;
    }
  }

  /** UpdateAlunoValidator: the e-mail and the student data (the status is always a
   *  declared one); the code is not part of the form. */
  function UpdateAlunoErrors(form: AlunoUpdateForm, hoje: Time, limite: Time, emailValido: string -> bool)
    : (r: seq<string>)
    ensures r == [] <==>
      EmailErrors(form.email, EmailFormato, emailValido) == [] && DadosAlunoErrors(form.dados, hoje, limite, emailValido) == []
    ensures MatriculaObrigatoria !in r
  {
    MatriculaNotAmongOthers(form.email, form.dados, hoje, limite, emailValido);
    EmailErrors(form.email, EmailFormato, emailValido) + DadosAlunoErrors(form.dados, hoje, limite, emailValido)
  }

  /** LoginValidator: the e-mail filled and well formed, the password filled and at
   *  least 6 long. */
  function LoginErrors(email: string, senha: string, emailValido: string -> bool): (r: seq<string>)
    ensures r == [] <==> NotEmpty(email) && emailValido(email) && NotEmpty(senha) && |senha| >= 6
    ensures SenhaObrigatoria in r <==> !NotEmpty(senha)
  {
    Check(NotEmpty(email), EmailObrigatorio) + Check(emailValido(email), EmailFormatoLogin)
    + Check(NotEmpty(senha), SenhaObrigatoria) + Check(|senha| >= 6, SenhaCurta)
  }

  /** An empty password is reported by both of its rules. */
  lemma LoginEmptyPassword(email: string, emailValido: string -> bool)
    requires NotEmpty(email) && emailValido(email)
    ensures LoginErrors(email, "", emailValido) == [SenhaObrigatoria, SenhaCurta]
  {
    assert !NotEmpty("");
  }

  /** ChangePasswordValidator. */
  function ChangePasswordErrors(senhaAtual: string, novaSenha: string, confirmacaoSenha: string): (r: seq<string>)
    ensures r == [] <==>
      NotEmpty(senhaAtual) && NotEmpty(novaSenha) && |novaSenha| >= 6 && SenhaForte(novaSenha)
      && confirmacaoSenha == novaSenha
    ensures ConfirmacaoDiferente in r <==> confirmacaoSenha != novaSenha
  {
    Check(NotEmpty(senhaAtual), SenhaAtualObrigatoria) + Check(NotEmpty(novaSenha), NovaSenhaObrigatoria)
    + Check(|novaSenha| >= 6, NovaSenhaCurta) + Check(SenhaForte(novaSenha), NovaSenhaFraca)
    + Check(confirmacaoSenha == novaSenha, ConfirmacaoDiferente)
  }

  /** A password change passes exactly when the current password is filled, the new one
   *  is at least 6 long with a lower-case letter, an upper-case letter and a digit in
   *  its first line (so it is never only white space), and the confirmation repeats it. */
  lemma ChangePasswordAccepted(senhaAtual: string, novaSenha: string, confirmacaoSenha: string)
    ensures ChangePasswordErrors(senhaAtual, novaSenha, confirmacaoSenha) == [] <==>
      && NotEmpty(senhaAtual) && |novaSenha| >= 6
      && (exists i :: 0 <= i < |FirstLine(novaSenha)| && IsLower(FirstLine(novaSenha)[i]))
      && (exists i :: 0 <= i < |FirstLine(novaSenha)| && IsUpper(FirstLine(novaSenha)[i]))
      && (exists i :: 0 <= i < |FirstLine(novaSenha)| && IsDigit(FirstLine(novaSenha)[i]))
      && confirmacaoSenha == novaSenha
  {
    SenhaForteFirstLine(novaSenha);
    if SenhaForte(novaSenha) {
      var i :| 0 <= i < |novaSenha| && IsDigit(novaSenha[i]) && forall j :: 0 <= j < i ==> novaSenha[j] != '\n';
      assert !IsWhiteSpace(novaSenha[i]);
    }
  }

  /** CreateUsuarioValidator (the type is always a declared one): the name filled and 2
   *  to 100 long, the e-mail, then a non-empty phone and CPF in their patterns. */
  function CreateUsuarioErrors(form: UsuarioForm, emailValido: string -> bool): (r: seq<string>)
    ensures r == [] <==>
      && NotEmpty(form.nome) && 2 <= |form.nome| <= 100
      && EmailErrors(form.email, EmailFormatoLogin, emailValido) == []
      && OptionalMatch(form.telefone, TelefonePattern) && OptionalMatch(form.cpf, CpfPattern)
    ensures TelefoneFormato in r <==> !OptionalMatch(form.telefone, TelefonePattern)
  {
    Check(NotEmpty(form.nome), NomeObrigatorio) + Check(|form.nome| >= 2, NomeCurto)
    + Check(|form.nome| <= 100, NomeLongo)
    + EmailErrors(form.email, EmailFormatoLogin, emailValido)
    + Check(OptionalMatch(form.telefone, TelefonePattern), TelefoneFormato)
    + Check(OptionalMatch(form.cpf, CpfPattern), CpfFormato)
  }
}
